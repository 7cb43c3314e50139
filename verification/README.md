# gFTP: protocol clients, stream decoders, bookmarks and work lists

A Dafny 4.11 model of the parts of gFTP with the most state, and proofs about
them. `dafny verify dfyconfig.toml` checks everything. Nothing here is run.

- **The FSP v2 client** (`lib/fsplib`). The packet codec (`FspPacket`), a world
  of datagrams that may be lost, repeated, delayed and reordered, with a server
  that acts whenever it likes (`FspNetwork`), the stop-and-wait transaction
  (`FspSession`), any number of sessions sharing one key under a semaphore
  (`FspKeyLock`), buffered reads and writes (`FspFile`) and the directory reader
  (`FspDirectory`). The server is specification only: it writes an UP_LOAD at its
  absolute position, answers GET_FILE from a fixed file and GET_DIR from a fixed
  listing, may refuse anything, and may lose its reply. An INSTALL closes the upload,
  as `lib/fsplib/fsplib.h:33` and `lib/fsp.c:268` understand it: what was uploaded
  becomes the file, the next UP_LOAD starts a new upload, and an INSTALL with nothing
  uploaded is refused. The client's methods are the source's, with `select`, `send`,
  `recv` and the clock left open; what they do at the wire is logged.
- **Decoders of byte streams** that arrive in pieces of any size: the line
  buffer (`LineReader`), FTP replies on top of it (`FtpReply`) and the HTTP
  chunked decoder, which works in the caller's buffer (`ChunkedBody`). Buffers
  have the spare byte that `lib/sockutils.c:42` allocates.
- **Bookmarks**: the tree of nodes with child, sibling and parent pointers and
  its stackless walks (`BookmarkTree`), adding an entry (`BookmarkAdd`), and the
  file that is written for a tree and read back (`BookmarkFile`).
- **Work lists**: the recursive directory walk over a list that grows while it is
  walked (`DirectoryWalk`), the transfer queue that is reordered while it runs
  (`TransferQueue`) and the history of input lines (`History`), the last two over
  `GList`.

Code that updates objects in place is a class with the same fields; its methods
are proved against functions of the old state, and what the source promises is
proved about those functions.

## Notes on the code

- **Checksum** (`lib/fsplib/fsplib.c:154`, `:187`). A change of one byte goes
  unnoticed exactly if it moves the byte by 255 and carries into, or borrows from,
  the second byte of the total. The total of the writer includes the length, that
  of the reader does not.
- **Length guard** (`lib/fsplib/fsplib.c:207`). It compares the length field with
  the whole datagram, header included. `FspPacket.LengthsAddUp` gives the exact
  condition under which the two unpacked lengths add up, and
  `FspPacket.OverlongIsAccepted` a datagram that is taken without meeting it.
- **Sequence base** (`lib/fsplib/fsplib.c:247-251`). Late replies to the
  transaction just before are never accepted; the base may be back one transaction
  later, exactly for the draws that `FspSession.BaseMayReturn` names.
- **Late datagrams after a close** (`lib/fsplib/fsplib.c:1029-1049`). `fsp_fclose`
  returns 0 once the server has made the content into a file. Duplicates of the
  UP_LOADs and of the INSTALL may still be under way, and a late UP_LOAD followed by a
  late INSTALL replaces the file by that one stretch of it
  (`FspNetwork.PartReplacesWhole`). `FspFile.UploadFile` shows that the file is safe
  from this if and only if it went out in one UP_LOAD, that is, has at most 1024 bytes.
- **A reply cut short** (`lib/rfc959.c:111-147`). When the stream ends inside a
  reply, the line before counts as its last: 230- and then the end reads as success
  (`FtpReply.CutShortReply`). When it ends before any line, the code copies a buffer it
  never wrote to; the model leaves that result open.
- **Empty directory** (`lib/fsplib/fsplib.c:548-590`). If the first block is empty
  no handle was allocated, and the code goes on to use it. The model calls this
  outcome `NullHandle`.
- **Chunked decoder** (`lib/rfc2068.c:864-870`). If a buffer ends exactly with the
  payload of a chunk whose header is in the same buffer, the payload left becomes
  zero and the payload just moved is decoded again as if it were a header.
  `ChunkedBody.PassIsExact` shows that this is the only way a pass goes wrong.
  From a spot as every pass leaves it, such a pass can come up if and only if some
  chunk fits the buffer, header and all, with no header before it that does not fit
  (`ChunkedBody.GoesWrongIfSomeChunkFits`). After any reads it has come up exactly if
  one of the passes over them was of this kind (`ChunkedBody.WrongMeansPassWentWrong`);
  the reads and passes are logged, and nothing else decides it.
- **An empty chunked body** (`lib/rfc2068.c:158-159`, `:172`). If the first size line says
  0 the response is not marked as chunked, so that what follows is handed out as it comes.
- **A 0 that is not the end** (`lib/rfc2068.c:335-348`, `:862-874`). A pass comes out
  empty with nothing saved exactly if its buffer is one whole chunk header, and 0 is
  returned as at the end of the stream (`ChunkedBody.EmptyPass`). 0 is also returned,
  with all of the payload left, when the line buffer is empty after the first size line.
- **Behind the last chunk** (`lib/rfc2068.c:849-862`). The last header is not taken out
  of the buffer, but as many bytes are returned as lie behind it: the start of that
  header once more, with its second CR turned into a NUL (`ChunkedBody.Echo`). What is
  read is exactly the payload if and only if the buffer ended with that header.
- **An error on a well-formed body** (`lib/rfc2068.c:707`, `:815-828`). The decoder
  gives up when more was saved than the caller's buffer holds, and when a header is still
  not whole after three passes.
- **Bookmarks file** (`lib/config_file.c:222`, `:756-760`). A bookmark whose path
  ends in a blank or a closing bracket is read back shorter. A bookmark that has
  children is not written itself, and is a folder after reading;
  `BookmarkFile.FileRebuildsTree` shows that nothing else changes.
- **Loop detection** (`lib/protocols.c:1146-1166`). Device and inode numbers are cut
  to 32 bits. The counts add up to the number of different files exactly if no two
  of them look the same after the cut.

## Model

| member | source | states |
|---|---|---|
| FspPacket.ByteChangeDetected | lib/fsplib/fsplib.c:179-198 | exactly which changes of one byte, at any place of a datagram of any length, pass the checksum: those by 255 that carry or borrow |
| FspPacket.ChecksumChangeDetected | lib/fsplib/fsplib.c:179-198 | every change of the checksum byte itself is noticed |
| FspPacket.ClientRoundTrip | lib/fsplib/fsplib.c:119-156 | a server that checks the sum with the length recovers every field and both data blocks of every packet the client can write |
| FspPacket.ServerRoundTrip | lib/fsplib/fsplib.c:160-217 | the client's reader accepts and recovers every packet whose sum leaves the length out |
| FspPacket.ExampleRequest | lib/fsplib/fsplib.c:119-156 | one request byte by byte: where each field is, its higher byte first, and the checksum that counts the length |
| FspPacket.ExampleAnswer | lib/fsplib/fsplib.c:160-217 | one answer byte by byte, with a checksum that leaves the length out, is accepted and read field by field |
| FspPacket.LengthsAddUp | lib/fsplib/fsplib.c:207-215 | the unpacked lengths add up to the datagram if and only if the length field leaves room for the header |
| FspPacket.OverlongIsAccepted | lib/fsplib/fsplib.c:207-215 | a bare header that announces one byte is accepted, and its length field does not fit |
| FspPacket.Pkt.Write | lib/fsplib/fsplib.c:119-156 | the bytes laid out are the client image of the packet, with its checksum; too much data leaves the space alone and returns 0 |
| FspPacket.Pkt.Read | lib/fsplib/fsplib.c:160-217 | success exactly for the datagrams accepted, and then every field, the wrapped extra length and the copied bytes |
| FspPacket.FoldedSum | lib/fsplib/fsplib.c:181-187 | the loop that starts from minus the checksum byte computes the fold of the other bytes |
| FspNetwork.RunKeepsFaithful | lib/fsplib/fsplib.c:281-400 | in every run of losing, repeating and reordering, each answer that can reach the client answers a request that was sent |
| FspNetwork.RunKeepsUploadSafe | lib/fsplib/fsplib.c:939-952 | whatever the network does, if clients only send stretches of one content, one length per position, and INSTALL only when all of it is there, the upload area only ever holds bytes of the content, loses none until an INSTALL is carried out, and the first file made is the content |
| FspNetwork.CompleteUploadIsStable | lib/fsplib/fsplib.c:989-1025 | once all of the content has landed, late duplicates do not change the area before an INSTALL is carried out, and the file that INSTALL makes is the content |
| FspNetwork.InstalledStays | lib/fsplib/fsplib.c:1029-1049 | with an INSTALL in flight the file stays the content in every continuation in which nothing more is sent, if and only if it is the content now, no UP_LOAD in flight carries a mere part of it, and no part was left in the area |
| FspNetwork.PartReplacesWhole | lib/fsplib/fsplib.c:939-952 | from every state with an UP_LOAD of a part and an INSTALL in flight there is a run, in which nothing more is sent, that ends with another file than the content |
| FspNetwork.RunKeepsWhole | lib/fsplib/fsplib.c:1164-1174 | with no part in flight every file made in any run without new UP_LOADs is the content |
| FspNetwork.AcknowledgedMeansLanded | lib/fsplib/fsplib.c:939-953 | before an INSTALL is carried out, an acknowledgement at a position means that the whole stretch sent there is in the area |
| FspNetwork.RunKeepsNoInstall | lib/fsplib/fsplib.c:1029-1049 | without an INSTALL among what is sent nothing is installed in any run |
| FspNetwork.RunSendsOnly | lib/fsplib/fsplib.c:281-299 | no run has datagrams in flight that no client sent |
| FspNetwork.ContentGrows | lib/fsplib/fsplib.c:956-968 | an upload that is safe for what was written so far is safe for every longer content |
| FspSession.NextBase | lib/fsplib/fsplib.c:247-251 | the new sequence base is a multiple of 8 and differs from the one before, whatever random returns |
| FspSession.Tagged | lib/fsplib/fsplib.c:267 | the base survives the tag of any retry |
| FspSession.LateAnswerRejected | lib/fsplib/fsplib.c:353-378 | no answer to any attempt of the preceding transaction passes the tests of this one |
| FspSession.BaseMayReturn | lib/fsplib/fsplib.c:247-251 | for which draws the base is back two transactions on: exactly if it is drawn then, or its flip side is drawn while that is the base in between |
| FspSession.DelayLaw | lib/fsplib/fsplib.c:272-308 | the waits begin with 1340, each is three halves of the one before rounded down, and none is longer than the maximum |
| FspSession.SendKeepsPace | lib/fsplib/fsplib.c:272-308 | each send, whether it worked or failed, keeps the bounds on attempts and accounted delay and the order of the waits |
| FspSession.OneSendOn | lib/fsplib/fsplib.c:281-319 | what the log of the wire says of one send and the waits after it: one attempt more, and the first wait if it worked |
| FspSession.KeyCell.GetKey | lib/fsplib/lock.c:59-71 | takes the semaphore once and returns the low 16 bits of the shared key |
| FspSession.KeyCell.SetKey | lib/fsplib/lock.c:73-85 | stores the key and raises the semaphore once |
| FspSession.Session.constructor | lib/fsplib/fsplib.c:474-479 | five minutes in all and one minute per answer, the base drawn, and no counts yet |
| FspSession.Session.Judge | lib/fsplib/fsplib.c:339-378 | what is read of a datagram: unreadable by its checksum or length, stray by its sequence base, command or position, or the answer, told from its bytes |
| FspSession.Session.WaitOnce | lib/fsplib/fsplib.c:310-378 | one wait for what is left of the delay: an answer is taken when it is there, what is no answer takes its time off the delay and does not end the wait |
| FspSession.Session.AwaitReply | lib/fsplib/fsplib.c:310-379 | the first datagram handed over that is an answer is taken, with its fields; silence means that none was handed over and that nothing was left of the delay or the last wait lasted to its end; every wait is for what was left; the count is of those that were read and were no answer |
| FspSession.Session.SendOnce | lib/fsplib/fsplib.c:266-299 | the datagram sent is the image of the request tagged with the retry, the wait is 3/2 of the one before, brought within limits, and if the send worked it ends as AwaitReply says |
| FspSession.Session.RetryOnce | lib/fsplib/fsplib.c:258-308 | exactly one send of this attempt at the wire; a failed one uses no retry slot and accounts 1000; a silent one uses one, accounts its wait, and waited it out; no answer was handed over before, or it is the one taken |
| FspSession.Session.Attend | lib/fsplib/fsplib.c:258-402 | the loop ends with the first answer handed over, or at the timeout or a break without one; nothing but attempts of this request goes out, and nothing at all for a packet with too much data |
| FspSession.Session.Exchange | lib/fsplib/fsplib.c:247-402 | every way out hands the key back exactly once, what is on the wire since is attempts of this request only, and the sends and waits in the wire's log are bounded |
| FspSession.Session.Transaction | lib/fsplib/fsplib.c:223-402 | it succeeds with the first answer it is handed, whose fields it returns, and gives up only if it was handed none and all of the timeout is accounted for or a call failed for good; the key is taken and handed back once on every path, the server's on success and the own one otherwise; every send is an attempt of this request; at most ceil(timeout / 1000) sends for maxdelay of 1000 or more, delay below timeout + maxdelay, waits that never shrink; strays are counted; it is a miss exactly if it gave up or was answered with an error |
| FspKeyLock.StepKeepsSound | lib/fsplib/lock.c:59-85 | every small step of any session keeps the semaphore, the cell and the log in agreement |
| FspKeyLock.RunKeepsSound | lib/fsplib/lock.c:59-85 | so does every interleaving of any number of sessions |
| FspKeyLock.KeyIsHandedOn | lib/fsplib/fsplib.c:244-397 | in every reachable state at most one session holds the key, takings and returns alternate, and each gets the key last returned |
| FspKeyLock.TransactionIsARun | lib/fsplib/fsplib.c:238-400 | what a transaction promises about semaphore, cell and log is what four steps of one session do |
| FspFile.BuildFilename | lib/fsplib/fsplib.c:38-68 | succeeds exactly for a name of at most 1022 bytes and, with a password, both of at most 1021, and then lays both out with their separators |
| FspFile.Fopen | lib/fsplib/fsplib.c:784-854 | null exactly for unsupported modes and names that do not fit; otherwise a file at offset 0 or an empty upload |
| FspFile.File.Fetch | lib/fsplib/fsplib.c:873-884 | every request asks for this file, by name and password, at this position; an accepted reply carries the server's bytes from there on; it fails only if this transaction gave up or its own answer is an error, and is then counted as one miss |
| FspFile.File.Fill | lib/fsplib/fsplib.c:869-891 | a fetch moves the bytes to the end of the buffer and does not move the offset of the next byte handed out, whether it works or fails |
| FspFile.File.ReadBytes | lib/fsplib/fsplib.c:867-917 | the loop hands out consecutive bytes of the file, fewer than asked only at its end or if its last fetch was a miss |
| FspFile.File.FRead | lib/fsplib/fsplib.c:856-918 | the same with item counts: unless a fetch of this call was a miss, as many bytes as asked for or as the file still has; the next call goes on right behind |
| FspFile.File.SeekSet | lib/fsplib/fsplib.c:1051-1081 | the next byte read is the one at the offset, negative ones included, cut to 32 bits; the end of file mark and what was buffered are gone |
| FspFile.Download | lib/fsplib/fsplib.c:856-918 | any sequence of reads of any sizes, with failed fetches in between, asks for this file only and delivers consecutive bytes from the last seek on, none twice and none left out; if no transaction was a miss, as many as were asked for or as the file has from there |
| FspFile.File.Upload | lib/fsplib/fsplib.c:936-954 | a buffer that was acknowledged has landed; a failed one stays, and may only be sent again unchanged; only UP_LOADs of this length were sent |
| FspFile.File.WriteBytes | lib/fsplib/fsplib.c:933-972 | what the loop took is appended to the content, and a full return took all of it |
| FspFile.File.FWrite | lib/fsplib/fsplib.c:920-973 | without an error a full count, and all bytes taken; after a failed upload the whole items among the bytes that went out before it; after an earlier error nothing is taken; the error is set exactly if an upload was a miss |
| FspFile.File.FFlush | lib/fsplib/fsplib.c:989-1025 | after a 0 the server's area is the content, byte for byte, and the position is its length; it fails only by a miss |
| FspFile.File.FClose | lib/fsplib/fsplib.c:1029-1049 | it succeeds exactly if the name fits and no transaction was a miss; every INSTALL on the wire is of this name and password; the server then made the content into a file, and with all buffers sent full but the last, it stays that file whatever is still in flight, if and only if it has at most 1024 bytes |
| FspFile.Install | lib/fsplib/fsplib.c:1143-1178 | everything sent is an INSTALL of this name and password; it succeeds exactly if the name fits and the transaction was no miss, and then the whole content was made into a file, which is the current one if no part of the content is in flight |
| FspFile.UploadSent | lib/fsplib/fsplib.c:939-952 | a transaction that sends one stretch keeps the upload safe, and an acknowledgement at its position means that it landed |
| FspFile.InstallSent | lib/fsplib/fsplib.c:1164-1174 | a transaction that sends INSTALL for a complete area can only make the content into the first file, and into every file if no part of it is in flight |
| FspFile.UploadFile | lib/fsplib/fsplib.c:920-1049 | it succeeds exactly if the name fits and no transaction was a miss; every INSTALL on the wire is of this name and password; the server has then made a file of exactly the pieces in order, and it stays that file for ever if and only if it has at most 1024 bytes |
| FspDirectory.ScanFindsFirst | lib/fsplib/fsplib.c:672-742 | from any place in a listing laid out by the record format, the reader finds the first entry that follows, or the end |
| FspDirectory.EntriesByFirst | lib/fsplib/fsplib.c:672-742 | entries found one after the other are all entries in order |
| FspDirectory.ShownOneByOne | lib/fsplib/fsplib.c:700-741 | every field of every entry as it is shown: names of more than 255 bytes cut, the record length rounded up to four bytes |
| FspDirectory.Dir.ReaddirNative | lib/fsplib/fsplib.c:662-743 | one call finds what the scan finds and stands behind it; the two error returns leave the position alone; each turn moves on |
| FspDirectory.Dir.TakeRecord | lib/fsplib/fsplib.c:700-741 | the record at the position, with the name cut at 255 bytes, and the next position after name and padding |
| FspDirectory.FetchBlock | lib/fsplib/fsplib.c:535-548 | an accepted block is the server's block at the position; none exactly if the transaction was a miss |
| FspDirectory.OpenDir | lib/fsplib/fsplib.c:511-597 | every request is a GET_DIR of this name and password; an opened handle holds the whole listing and the size of the first block; the null handle means an empty listing; it fails exactly if the name does not fit or a transaction was a miss |
| FspDirectory.ListDirectory | lib/fsplib/fsplib.c:511-743 | opening and reading to the end asks for this directory only, succeeds exactly if the name fits and no transaction was a miss, and yields exactly the entries that were laid out, in order |
| LineReader.PiecesAreLines | lib/sockutils.c:56-93 | if every line fits, the pieces the calls take are the lines of the stream |
| LineReader.PiecesLoseNothing | lib/sockutils.c:56-93 | of bytes without a line feed nothing is lost: the pieces put together are the bytes, none is empty, and all but the last fill the buffer |
| LineReader.FittingLinesAreNotCut | lib/sockutils.c:62-83 | if every line fits the caller's buffer too, no line is cut |
| LineReader.LinesOfWire | lib/sockutils.c:64-71 | splitting what was sent on LF, with one CR before it dropped, gives back the texts sent |
| LineReader.LineBuffer.FindLf | lib/sockutils.c:58 | the first line feed of what is unread, or none |
| LineReader.LineBuffer.Extract | lib/sockutils.c:64-91 | the line without its terminator is stored, and the buffer stands behind it |
| LineReader.LineBuffer.Refill | lib/sockutils.c:96-134 | shifting and reading on keeps what was unread in front of what is new |
| LineReader.LineSource.GetLine | lib/sockutils.c:22-139 | one call takes exactly the next piece of what is pending, however reads fragment it, and returns its length with the terminator |
| LineReader.ReadAllLines | lib/sockutils.c:22-139 | calls until the end return the lines of the stream for every fragmentation, and the return values add up to its length |
| FtpReply.CodeStep | lib/rfc959.c:117-131 | the loop's comparison of code and line stops exactly at final lines, and at a blank line before any code |
| FtpReply.WhichLinesEnd | lib/rfc959.c:117-128 | a line carries a code exactly if it starts with the three digits of a number below 1000, and ends the reply exactly if a blank follows them |
| FtpReply.BlankLine | lib/rfc959.c:111-131 | a blank line ends the reply if there was no code before it, and is passed over if there was |
| FtpReply.RestOfReply | lib/rfc959.c:111-131 | on the lines of a well-formed reply the loop stops at its last line and nowhere before |
| FtpReply.CutShortReply | lib/rfc959.c:111-147 | a reply without its last line is read as ending with the last line that came |
| FtpReply.Control.ReadToFinal | lib/rfc959.c:111-131 | the loop consumes the reply at the front of what is pending, or all of it up to the end of the stream, with the last line that came |
| FtpReply.Control.ReadResponse | lib/rfc959.c:92-147 | one call consumes one reply and returns the first byte of its last line, or the error of the line reader, or, where that is asked for, drops the connection with a timeout if that line starts with 42; a reply cut short by the end of the stream ends with the last line that came |
| FtpReply.ReadReplies | lib/rfc959.c:92-147 | on well-formed replies the k-th call consumes exactly the k-th reply and returns its first digit |
| ChunkedBody.DecodePrefix | lib/rfc2068.c:784-871 | on every prefix of a body that does not end exactly with a chunk's payload, a pass hands out precisely the payload in it, what is saved and what is still to come make up the rest, and at the end the echo of the last header follows |
| ChunkedBody.PassIsExact | lib/rfc2068.c:864-870 | a pass hands out precisely the payload in its buffer if and only if the buffer does not end exactly with a chunk's payload |
| ChunkedBody.EmptyPass | lib/rfc2068.c:862-874 | a pass that goes right comes out empty with nothing saved if and only if its buffer is one whole header of a chunk |
| ChunkedBody.WrongMeansPassWentWrong | lib/rfc2068.c:864-870 | a run of reads and passes goes wrong if and only if one of its passes ends exactly with a chunk's payload |
| ChunkedBody.GoesWrongIfSomeChunkFits | lib/rfc2068.c:694-875 | from a settled spot some possible run goes wrong if and only if some chunk fits the buffer, header and all, and so does every header before it |
| ChunkedBody.PassedIsSettled | lib/rfc2068.c:798-811 | after every pass that goes right the spot is settled: what was saved is less than the next header |
| ChunkedBody.LongChunksGoRight | lib/rfc2068.c:694-875 | with every chunk, header included, longer than the buffer no possible run goes wrong |
| ChunkedBody.AlignedPayloadIsLost | lib/rfc2068.c:869-870 | a concrete chunk that fills the buffer and is lost |
| ChunkedBody.SizeIsScanned | lib/rfc2068.c:834-845 | what is scanned of a size line is a number n exactly if the line, after blanks, has the hexadecimal digits of n, in either case and with any zeros in front, followed by nothing or by what is no digit |
| ChunkedBody.HexTextSays | lib/rfc2068.c:834-845 | every number has such a line: its shortest hexadecimal text |
| ChunkedBody.NoSizeIsBad | lib/rfc2068.c:834-845 | a header whose line says no size at all makes the pass an error |
| ChunkedBody.ChunkedReader.TakeHeader | lib/rfc2068.c:791-862 | a whole header is recognised, its size read as a hexadecimal number, and taken out of the buffer in place |
| ChunkedBody.ChunkedReader.PassStep | lib/rfc2068.c:785-871 | one turn decodes one header or saves the unfinished one |
| ChunkedBody.ChunkedReader.DecodeInPlace | lib/rfc2068.c:784-871 | the in-place loop leaves the decoded bytes in front, and the fields and the verdict, as the function of the buffer says |
| ChunkedBody.ChunkedReader.Fill | lib/rfc2068.c:707-782 | saved bytes first, then the stream, never over a chunk's end, with one byte left for the NUL |
| ChunkedBody.ChunkedReader.ChunkedRead | lib/rfc2068.c:694-875 | for every well-formed body, its sizes told in hexadecimal, and every fragmentation: where decoding stands follows from what was read, pass by pass; a call without error hands out the next payload bytes, and at the end exactly the rest and the echo, unless a pass went wrong; a 0 means the end of the stream, no room, or a buffer of one header; an error means one of the wire, saved bytes without room, or a header not whole after three passes; a response that is not chunked is handed out as it comes, up to its length |
| ChunkedBody.Response.SetUpChunks | lib/rfc2068.c:144-172 | bytes of the body that came with the headers are split into payload that is kept, as much as the hexadecimal size line says, and raw bytes that are saved; a size line that does not scan is a fatal error and one that says 0 leaves the response unmarked |
| ChunkedBody.Response.GetNextFileChunk | lib/rfc2068.c:330-356 | first what is left of the line buffer, as much as fits, and 0 if it is empty; then what the decoder hands out, without loss in between |
| ChunkedBody.Response.ReadBody | lib/rfc2068.c:694-875 | all that calls return is a prefix of the payload, and after the end of the body all of it and the echo, exactly the payload if and only if the buffer ended with the last header; it stops for a named reason, an error included; no pass goes wrong if no chunk that can be reached fits the buffer |
| BookmarkTree.Climb | lib/config_file.c:907-908 | climbing over parent links ends at the nearest ancestor with a sibling to its right |
| BookmarkTree.AscendPreorder | lib/config_file.c:907-909 | nothing that preorder still has to visit is skipped on the way up |
| BookmarkTree.BuildHashTable | lib/config_file.c:892-913 | the walk over links only visits the nodes in preorder, each once, ends, and enters each under its path |
| BookmarkTree.PostorderNoRepeats | lib/config_file.c:1545-1572 | in a tree without sharing no node is given back twice |
| BookmarkTree.ChildrenBeforeParents | lib/config_file.c:1545-1572 | in the order of destruction everything below a node comes before it |
| BookmarkTree.FreeUpwards | lib/config_file.c:1558-1569 | a node without children left is given back, and each parent whose last child that was, reading no link of a node already given back |
| BookmarkTree.Destroy | lib/config_file.c:1545-1572 | all nodes are given back in postorder, each exactly once, and none is read afterwards |
| BookmarkAdd.InsertViaFolder | lib/config_file.c:42-78 | making a folder first, and then what is in it, is the same as adding the entry at once |
| BookmarkAdd.RouteLeads | lib/config_file.c:47-48 | every node is reached by the prefixes of its own path |
| BookmarkAdd.GraftIsInsert | lib/config_file.c:97-106 | linking a node in as the last child of its folder is what adding means for the tree |
| BookmarkAdd.GraftSpelled | lib/config_file.c:58-61 | changing one next link, or one child link, spells out the tree with the new last child and leaves the rest as it was |
| BookmarkAdd.Bookmarks.FolderFor | lib/config_file.c:47-75 | an existing folder is used, a missing one made as the last child, and the next place to append found |
| BookmarkAdd.Bookmarks.AddFolders | lib/config_file.c:33-78 | all folders of the path are there afterwards, and nothing else changed |
| BookmarkAdd.Bookmarks.Parent | lib/config_file.c:87-97 | the index finds the folder made for the path up to its last slash |
| BookmarkAdd.Bookmarks.AddBookmark | lib/config_file.c:22-113 | the new tree is the old one with the entry inserted along its path; the index again maps exactly the nodes below the root; a slash at the end only makes folders |
| BookmarkAdd.EntryUnderItsFolder | lib/config_file.c:87-111 | in every tree built this way the parent of an entry is the entry of its path up to the last slash, which exists, and the entry is exactly once in its parent's chain of children |
| BookmarkFile.ChunksOfLines | lib/config_file.c:210-216 | fgets returns lines that fit its buffer one by one |
| BookmarkFile.HeaderSurvives | lib/config_file.c:219-223 | a header is read back as it was written if and only if the path does not end in a blank or a closing bracket |
| BookmarkFile.WrittenReads | lib/config_file.c:753-814 | a written file reads as the paths of the childless entries in the order of the walk |
| BookmarkFile.WriteSection | lib/config_file.c:762-803 | the text of one section, with leading slashes of the path dropped |
| BookmarkFile.SectionText | lib/config_file.c:762-803 | the text of a section, letter by letter: the path without its leading slashes in brackets, a slash marking a folder, the lines of a bookmark, and a blank line |
| BookmarkFile.WriteBookmarks | lib/config_file.c:753-814 | the walk over links only writes the childless entries in preorder, each once |
| BookmarkFile.ReadHeader | lib/config_file.c:212-223 | the path of a section line, trimmed at its end |
| BookmarkFile.ReadsHeader | lib/config_file.c:210-223 | a header line reads as what is between its opening bracket and all closing brackets and blanks at its end, with either line end or none |
| BookmarkFile.ReadBookmarks | lib/config_file.c:208-226 | the tree read is that of all sections added in order |
| BookmarkFile.LeavesRebuild | lib/config_file.c:753-814 | adding the childless entries of a forest in preorder rebuilds it next to whatever is there already |
| BookmarkFile.OffTheRoute | lib/config_file.c:80-111 | an entry without children is not on the way to any other entry, so that none is there already when it is read |
| BookmarkFile.FileRebuildsTree | lib/config_file.c:753-814 | writing and reading back restores paths, folders and order of siblings, and the tree is the same if and only if no bookmark was used as a folder |
| BookmarkFile.InsertPaths | lib/config_file.c:22-113 | adding an entry makes exactly the entries along its path exist |
| DirectoryWalk.LookupFile | lib/protocols.c:1136-1171 | found exactly if both numbers are not zero and the pair was entered before; the hash of hashes then holds exactly one pair more |
| DirectoryWalk.NewIsFirst | lib/protocols.c:1136-1171 | a file is new exactly if one of its numbers is zero, or no file before it with numbers has the same two in 32 bits |
| DirectoryWalk.Transfer.Setup | lib/protocols.c:1063-1132 | every selected file gets its size and its full name in place; fatal exactly if a size that is asked for cannot be had |
| DirectoryWalk.KeptIsPicked | lib/protocols.c:996-1014 | the files kept of a listing are exactly those not named "." or "..", each once and in order, an absolute name as it is and a relative one completed with the directory |
| DirectoryWalk.Transfer.GetDirListing | lib/protocols.c:970-1041 | the files of the current directory's listing but for the two dot entries, with full names, in order, told by their places in it |
| DirectoryWalk.Transfer.FollowLink | lib/protocols.c:1224-1243 | what is no link stays; a link to a directory becomes one, another gets its size, one that cannot be looked up stays, and a fatal error there is the call's |
| DirectoryWalk.Transfer.Descend | lib/protocols.c:1252-1306 | the directory is gone to, and the files inside are appended behind the last entry of the list; an error exactly if it cannot be entered or listed |
| DirectoryWalk.Transfer.Visit | lib/protocols.c:1216-1310 | one file of the list: skipped if it was there before, counted once, looked into if it is a directory; an error exactly if it is new and makes trouble |
| DirectoryWalk.LessLeft | lib/protocols.c:1216-1310 | every round either meets a new pair of numbers or leaves less to do |
| DirectoryWalk.Transfer.GetAllSubdirs | lib/protocols.c:1189-1339 | it ends; it succeeds exactly if nothing that it has to ask ends in an error; on success the list is the selection followed by what is inside each new directory of the list, in order, the counts are those of new directories and other new files, and the directory is set back |
| DirectoryWalk.CountsAreFiles | lib/protocols.c:1142-1166 | the counts add up to the number of different files if and only if no two look the same in 32 bits |
| DirectoryWalk.LookedIntoOnce | lib/protocols.c:1220-1222 | no directory is looked into twice, under whatever names it is met |
| DirectoryWalk.LookalikeIsSkipped | lib/protocols.c:1146-1155 | a different file with the same numbers after the cut is neither counted nor looked into |
| DirectoryWalk.WalkReachesAll | lib/protocols.c:1189-1339 | on every graph, with cycles and several names for one file, the list is exactly what can be reached from the selection, one count is the number of directories among it and both add up to its size |
| DirectoryWalk.SmallNumbersReachAll | lib/protocols.c:1146-1166 | the same wherever device and inode numbers have at most 32 bits |
| TransferQueue.Transfer.MoveUp | src/gtk/transfer.c:1061-1089 | an entry that is not the first, with a started transfer at neither of the two, changes places with the one before it; the transfer's pointer stays with its entry and all links are right again; otherwise nothing changes |
| TransferQueue.Transfer.MoveDown | src/gtk/transfer.c:1127-1156 | the same for the entry and the one after it |
| TransferQueue.WhatMovesDo | src/gtk/transfer.c:1061-1156 | both moves in terms of the places: the two entries and nothing else change, and the pointer is at the same entry as before |
| TransferQueue.Transfer.Show | src/gtk/transfer.c:531 | a transfer that is shown points at the first entry |
| TransferQueue.Transfer.Launch | src/gtk/transfer.c:684 | the transfer is marked as started with its pointer where it is, so that moves keep clear of that entry from now on |
| TransferQueue.Transfer.Begin | src/gtk/gftp-gtk.c:1812 | the thread starts at the head of the queue as it is then, whatever was moved since the transfer was marked as started |
| TransferQueue.Transfer.Advance | src/gtk/gftp-gtk.c:1589-1591 | the transfer goes on to the next entry of the queue as it is then |
| TransferQueue.UpAndDown | src/gtk/transfer.c:1061-1156 | moving up and down again gives the same queue, whether or not the guard let the move through |
| TransferQueue.MovesKeepSides | src/gtk/transfer.c:1062-1064 | no move takes a file across the one being transferred, or that one from its place |
| TransferQueue.SentIsBehind | src/gtk/transfer.c:1061-1156 | in every run of moves, of marking and starting, and of transfers, what was sent is what is behind, and no file is lost or doubled |
| TransferQueue.EachFileOnce | src/gtk/transfer.c:1061-1156 | a run that comes to the end has sent each file exactly once, however the queue was changed on the way |
| History.LatestIsUsed | src/gtk/misc-gtk.c:433-483 | the full history holds exactly the strings that were entered and are not empty |
| History.LatestIsByUse | src/gtk/misc-gtk.c:433-483 | it has each of them once, ordered by last use, the latest first |
| History.UsedIsLatest | src/gtk/misc-gtk.c:449-481 | cutting off at ten and entering a string again gives the ten latest of all that was ever entered |
| History.InputHistory.CutOff | src/gtk/misc-gtk.c:453-465 | the list ends before its tenth entry |
| History.InputHistory.ToFront | src/gtk/misc-gtk.c:471-481 | an entry found behind others becomes the first and the rest keeps its order |
| History.InputHistory.AddHistory | src/gtk/misc-gtk.c:433-483 | after any inputs the list is the at most ten latest different strings, its length is the smaller of `histlen` and 10, and `histlen` counts every string that was not there |

## Left out

- FspSession.Session.Transaction: delays are unbounded integers, so that the overflow of `l_delay * 3 / 2` after some thirty silent attempts, far more than the default timeout allows, is not modelled; `maxdelay` of 0, with which the loop need not end, is excluded by `Session.Valid`; round-trip statistics and `errno` are not kept.
- FspSession.KeyCell.GetKey: the call requires a semaphore that is not zero, as one that is zero blocks; failing semaphore calls and the `lockf` version are not modelled.
- FspFile.File.FWrite: positions beyond 32 bits, where `pos` wraps, are excluded, and so are items of size 0 with a full buffer, where a failed upload divides by zero.
- FspFile.File.FRead: `size` 0 is excluded, as the code divides by it.
- FspFile.UploadFile: starts on a server whose upload area is empty; remains of an abandoned upload are not modelled, nor is the INSTALL with an empty name that cancels one. Files have no names on the modelled server; what is proved of names is that every request carries the right one.
- FspDirectory.Dir.ReaddirNative: data that stops inside a record header is excluded, as the code reads behind it.
- FspDirectory.ListDirectory: listings of 2 GiB and more, and a server that changes the listing meanwhile, are excluded.
- LineReader.ReadAllLines: the streams have no NUL bytes, at which the code's string functions stop.
- ChunkedBody.ChunkedReader.ChunkedRead: signs, a leading 0x and numbers beyond 64 bits in a chunk size are not modelled, nor a response with both a length and chunks.
- BookmarkAdd.Bookmarks.AddBookmark: the path must not be empty or start with a slash, and a bookmark must not be there already; the caller in the GUI checks the last, the file reader does not. The temporary NUL in the path is a slice here.
- BookmarkTree.Destroy: the memory given back is a record that is passed along, not the allocator.
- BookmarkFile.ReadBookmarks: starts from an empty tree, for files whose sections can all be added; fields other than the path are lines of any text that start no section.
- DirectoryWalk.Transfer.GetAllSubdirs: there is no second side (`toreq` is NULL) and no callback; the answers of the other side do not change during the walk; files without device or inode number, which take no part in loop detection, must not lead into an endless descent.
- TransferQueue.Transfer.MoveUp: the tree view, the mutex and the marker for the display (`updfle`) are not modelled.
- History.InputHistory.AddHistory: a history loaded from the configuration file is not modelled, nor is the wrap-around of `histlen` after 2^32 strings; a NULL string is an empty one.
- Seeks, purges and rewinds in the middle of an upload, SEEK_CUR and `fsp_ftell`.
- Sockets, TLS, name lookup, the semaphore's system calls and real clocks: they are open choices of the model.
- GTK beyond the list operations, logging, translation, failed allocations and character sets.
- `lib/cache.c`, `lib/sshv2.c`, the transfer byte counters, the directory-listing parsers, HTTP headers and proxies.

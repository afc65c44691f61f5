# A verified model of the appliance's storage, pager, flash and boot code

The repository builds a small access-point distribution. This project models the algorithms in it that move bytes
about under thin I/O, and proves what they do for all inputs, all runs and all ways in which reads and writes can come
up short. Each method follows the branches of its source; what its `ensures` says is stated by functions on plain
values (a flat byte array, a list of lines, a single cursor), and the properties of those functions are lemmas.

| files | source | main results |
|---|---|---|
| `Files`, `Overlay`, `SeekCache`, `Misled`, `CowModel`, `BlockServer`, `CowRuns` | `nbd/nbd-server.c` | Every run of reads and writes on a copy-on-write export of one file or several, whatever its seek cache, acts on a flat image, up to a page that cannot be copied: request by request, on the image that the request sees, which differs from the true one at most in its first base read. A request is misled by the cache if and only if a stated condition on the state before it holds, and until then the run is that of a flat image. The cache is sound after a request, with or without copy on write, if and only if another such condition holds, and two methods run into cases where it is not. Base files never change, page map and diff slots stay in bijection, and 32-bit offsets never wrap. |
| `BlockProtocol`, `BlockSession` | `nbd/nbd-server.c`, `nbd/cliserv.h` | The main loop of a plain single-file export, with its seek cache and its chopped reads and writes, answers every input stream as a flat file does. Framing: one reply a request, in order, with its handle; a request breaks it if and only if it is a rejected write with a payload. |
| `TextLines`, `Pager` | `conf/lxdialog/textbox.c` | The pager over a 10 KB window refines "list of lines and index of the top line" for every file and key sequence. Its error exits are unreachable. |
| `NorFlash`, `FlashUpdate` | `aptools/update.c` | Exact erase across regions of different block sizes, the final value of every byte for every exit status, and exactly when the configuration survives, with two real flashes where `-s` loses it. |
| `WriteFlash` | `alios/wrflash/wrflash.c` | Erase-ahead writing: each touched block is erased once, before data lands in it and never after. |
| `FlashImage`, `BootLoader`, `Boot` | `scripts/build_flash.pl`, `alios/alios.S` | The layout of a built image, exactly when it has the size of the flash, exactly when the recorded address leads to the kernel, and that the loader, started from that image, places that kernel and that command line. |
| `DramProbe` | `alios/detect_dram.S` | The probe finds the first address line that a bank ignores. |
| `Menu` | `conf/lxdialog/menubox.c` | Over every run of keys, scroll and row move as a cursor on a list, and incremental repainting equals a full repaint. |
| `ConfigFile`, `ConfigRoundTrip` | `cgi/utils.c`, `cgi/setup.h` | Reading back printed settings gives each value trimmed, so the printed values exactly when they are trimmed; a table is unambiguous exactly when it is prefix-free. |

## Reading the specifications

- **Block server.** `Overlay.Image` is the export as a sequence of bytes, `None` where a base file ends too early.
  `Server.Valid` says that the page map, the ghost `owner` of each diff slot and the length of the diff file agree.
  `Snapshot` is the server as a value, and `WriteJob` and `ReadJob` are requests on such values: `SeenImage` is the image
  that a request sees, `End` and `CacheAfter` are what it leaves. The methods take the request as the ghost parameter `j`,
  which is fixed by the state (`CowWriteFound`, `CowReadFound`). A copy-on-write write makes its map entry before it
  copies the page; when the copy fails the page stays mapped without contents, so `CowWrite` states `ok <==> Valid()`, and
  `FailedAt` says what is then written and what is lost.
- **Seek cache.** A raw access uses the offset of its address, unless the cached position is equal to that offset: then it
  uses the place where the file stands (`Position`). Within one `expread` or `expwrite` the cached position lags behind
  the file, but later pages of the request have other offsets, so only the first base read can be misled
  (`PositionInRequest`). What it then finds is `Seen`. `mainloop` adds the length of the whole request to the position.
  For a single file without copy on write that is right (`PlainRead`, `PlainWrite`). `NotMisled` is the condition on a
  request, `MisledExactly` says that it is exact, and `FlatWhileNotMisled` what holds until it fails;
  `RequestKeepsExactly`, `AcrossHunksKeepsExactly` and `OneAccessKeepsExactly` say when the cache stays sound.
  `StaleCopyOnWriteRead` and `StaleSecondFileRead` are sequences of requests after which a read delivers other bytes.
- **Pager.** `Window` is the buffer invariant, `Valid` the refinement relation with the ghost `top`. The exits of the
  source that report an internal error or a failed seek are `assert false` in the branches where they stand. The comment
  on `file_size` in the source (real size less one) is wrong, and the model follows the code.
- **Flash.** A write can only clear bits (`Meet`), an erase fills one whole block with 0xFF, and `wear` counts erases
  by byte. `Updated` and `Formatted` are the final contents as functions of the old ones.
- **Updater.** With `-s` the program does not check that the configuration blocks can be erased by themselves, goes on
  after that erase fails and reports success, and it gives up before the restore when the image is too long;
  `ConfigKeptExactly` says when the configuration survives.
- **Boot.** A kernel that is a whole number of sectors is followed by a full sector of padding. The size in the boot
  sector is rounded up in 16 bits, which wraps above 65504 paragraphs (`SectorsSuffice`). A root
  file system that is too long by a few bytes can go unnoticed in the size of the image (`ImageSize`).
- **Config files.** The reader looks for the keyword after leading spaces but takes the value from the whole line
  (`LineEffect`), and drops a last line without a newline (`ReadAll`).
- **Plain statements.** What the functions of the specifications compute is also said without them, in bytes, characters,
  addresses and numbers as they stand in the sources: `RunDelivers`, `WhatIsSeen`, `LastWriteWins`, `RowsShow`, `OneKeyMore`,
  `ReplyShape`, `TurnedDown`, `GreetingBytes`, `UpdatedByte`, `UpdatedWearByte`, `FormattedByte`, `StoppedByte`, `MeetBits`,
  `Layout`, `KConfBytes`, `LoadFromImage`, `Columns`, `Rows`, `KeyDoes`, `TrimCuts`, `LineTakes` and `KeywordSet`.

## Model

| member | source | states |
|---|---|---|
| `TextLines.LinesCutTheFile` | conf/lxdialog/textbox.c:489-535 | the reference meaning of "the lines of a file": no line holds a newline, and joining the lines gives the file back |
| `TextLines.LineAtFrom` | conf/lxdialog/textbox.c:489-535 | line k is the text from its start to its end; only the last line ends at the end of the file, and the next line starts after the newline |
| `TextLines.StartPastEnd` | conf/lxdialog/textbox.c:505-519 | past the last line every start is the end of the file |
| `TextLines.StartOfLine` | conf/lxdialog/textbox.c:390-434 | searching back from anywhere in a line finds the start of that line |
| `Pager.LineTaken` | conf/lxdialog/textbox.c:489-535 | the line taken at a line's start, whether it is the last one, and where the next one starts |
| `Pager.LineShown` | conf/lxdialog/textbox.c:460-469 | the characters that are kept of a line give the row that the list model shows for it |
| `Pager.ClipShows` | conf/lxdialog/textbox.c:460-469 | which characters of a line its row has: those of the first 2048 after the horizontal scroll, as far as the row is wide |
| `Pager.OneKeyMore` | conf/lxdialog/textbox.c:134-315 | what each key does to the top line and the scroll, after any keys that do not close the box |
| `Pager.ClosedForGood` | conf/lxdialog/textbox.c:134-321 | nothing after a closing key counts |
| `Pager.ExitFirst` | conf/lxdialog/textbox.c:137-144 | the result is that of the exit key if and only if it comes before escape and enter |
| `Pager.TextBox.constructor` | conf/lxdialog/textbox.c:48-132 | opening a file of any size shows its first page and establishes the refinement relation |
| `Pager.TextBox.Read` | conf/lxdialog/textbox.c:163-169 | after a read the buffer holds the bytes that end at the file position and a NUL after them |
| `Pager.TextBox.CharAtPage` | conf/lxdialog/textbox.c:496-497 | under the window invariant the pointer stands on the file's byte at its absolute position, or on the NUL exactly at the end of the buffer |
| `Pager.TextBox.TakeChar` | conf/lxdialog/textbox.c:520-527 | of each line the first MAX_LEN characters are kept and the rest is passed over |
| `Pager.TextBox.RefillForward` | conf/lxdialog/textbox.c:497-519 | a forward refill keeps the window and the absolute position; it reports the end exactly at the end of the file |
| `Pager.TextBox.RefillBackward` | conf/lxdialog/textbox.c:393-432 | a backward refill, by half a buffer or to the start, keeps the window and the absolute position, never seeks below 0, and reports the beginning exactly at position 0 |
| `Pager.TextBox.GetLine` | conf/lxdialog/textbox.c:489-535 | returns the rest of the current line, moves to the start of the next one, and sets end_reached exactly when the file ends with it, across any number of refills |
| `Pager.TextBox.GetLineStep` | conf/lxdialog/textbox.c:496-528 | one pass of the loop: a character kept or passed over, or a refill, or the end of the line |
| `Pager.TextBox.GetLineAt` | conf/lxdialog/textbox.c:489-535 | the same by line number |
| `Pager.TextBox.PrintLine` | conf/lxdialog/textbox.c:459-469 | prints line j on one row, scrolled horizontally and cut at the width |
| `Pager.TextBox.PrintPage` | conf/lxdialog/textbox.c:440-454 | prints lines t to t+h-1 and establishes the refinement relation with top t |
| `Pager.TextBox.BackToNewline` | conf/lxdialog/textbox.c:392-433 | moves back from inside line m to the newline before it; only line 0 has none |
| `Pager.TextBox.BackOneChar` | conf/lxdialog/textbox.c:392-432 | moves back over just one character of the file, across a refill too; reports the beginning exactly at position 0 |
| `Pager.TextBox.BackOverNewline` | conf/lxdialog/textbox.c:337-389 | from a line's start the byte before is a newline, so the internal-error exit is unreachable |
| `Pager.TextBox.BackOneLine` | conf/lxdialog/textbox.c:390-435 | from the end of line m to the end of the line before it; only line 0 has none |
| `Pager.TextBox.BackFromEnd` | conf/lxdialog/textbox.c:390-435 | n steps back from the end of a line stop at the start of the line n-1 lines before it or at line 0, which sets begin_reached |
| `Pager.TextBox.BackLines` | conf/lxdialog/textbox.c:327-435 | lands on the start of line max(j-n,0), or max(last-n+1,0) at the end of the file, and sets begin_reached exactly at line 0 |
| `Pager.TextBox.BackFromPage` | conf/lxdialog/textbox.c:211-309 | back_lines(page_length + k) after a page lands k lines above that page's top, for every file, top and height |
| `Pager.TextBox.GoHome` | conf/lxdialog/textbox.c:145-177 | Home shows the first page, reading it in only when it has left the buffer |
| `Pager.TextBox.GoEnd` | conf/lxdialog/textbox.c:178-210 | End shows the last page; its seek back from the end never fails |
| `Pager.TextBox.PrintFirstRow` | conf/lxdialog/textbox.c:225-239 | printing only the first row still brings page, end_reached and page_length up to date |
| `Pager.TextBox.UncoverTop` | conf/lxdialog/textbox.c:218-239 | the rows move down by one and the first shows the line above |
| `Pager.TextBox.LineUp` | conf/lxdialog/textbox.c:211-245 | Up moves the top to k-1 unless it is 0; the scrolled rows equal a reprint |
| `Pager.TextBox.GoPageUp` | conf/lxdialog/textbox.c:246-256 | PageUp moves the top to max(k-h,0) |
| `Pager.TextBox.ScrollOne` | conf/lxdialog/textbox.c:259-268 | the rows move up by one and the last shows the line below; whether the file ends with it |
| `Pager.TextBox.LineDown` | conf/lxdialog/textbox.c:257-271 | Down moves the top to k+1 unless the last line shows; the scrolled rows equal a reprint |
| `Pager.TextBox.GoPageDown` | conf/lxdialog/textbox.c:272-282 | PageDown moves the top to k+h unless the last line shows |
| `Pager.TextBox.Reprint` | conf/lxdialog/textbox.c:283-311 | a horizontal scroll reprints the same lines |
| `Pager.TextBox.Press` | conf/lxdialog/textbox.c:134-315 | one pass of the key loop moves the top and the horizontal scroll as the list model does and keeps the refinement relation |
| `Pager.TextBox.KeyLoop` | conf/lxdialog/textbox.c:134-321 | the key loop moves top and scroll as the list model does, for every key sequence |
| `Pager.TextBox.RowsShow` | conf/lxdialog/textbox.c:440-469 | every row, character by character |
| `Pager.TextBox.Browse` | conf/lxdialog/textbox.c:134-321 | the key loop, for every key sequence: top line and scroll are those of the list model, row i has character hscroll + c of line top + i at its place c, for as many as there are and fit, and the result is 0 exactly when the exit key comes before escape and enter |
| `Files.ReadAt` | nbd/nbd-server.c:314-318 | what read delivers: the bytes at the position, short exactly when the file ends first |
| `Files.Splice` | nbd/nbd-server.c:350-354 | the contents after a write: the data there, every other old byte kept |
| `Files.FileTable.Read` | nbd/nbd-server.c:314-318 | a read delivers the bytes at the file position and moves it by what was read |
| `Files.FileTable.Write` | nbd/nbd-server.c:350-354 | a write puts the bytes at the file position and moves it by what was written |
| `Overlay.SlotsFit` | nbd/nbd-server.c:374-390 | never more diff slots than pages |
| `Overlay.SlotFree` | nbd/nbd-server.c:374-378 | while a page is unmapped there is room for its slot, so its 32-bit offset does not wrap |
| `Overlay.Slots` | nbd/nbd-server.c:374-389 | two pages in the diff file have different slots, all of which lie in it |
| `Overlay.AllocateStep` | nbd/nbd-server.c:377-378 | page by page, new pages get the next slots in order |
| `Overlay.MappedWrite` | nbd/nbd-server.c:370-375 | a write into a mapped page changes the view on its range and nowhere else |
| `Overlay.MappedWriteImage` | nbd/nbd-server.c:370-375 | the same for the whole image, with the allocation kept |
| `Overlay.FreshSlot` | nbd/nbd-server.c:376-389 | an appended page keeps map and slots in bijection and the diff file 4096 bytes a slot |
| `Overlay.FreshPage` | nbd/nbd-server.c:376-389 | a page copied with a piece replaced changes the view on that piece and nowhere else |
| `Overlay.FreshPageImage` | nbd/nbd-server.c:376-389 | the same for the whole image, with the allocation kept |
| `Overlay.UnfilledPage` | nbd/nbd-server.c:376-386 | a page that is mapped but not copied is lost with all that could be read of it, and no other byte changes |
| `Overlay.WithinHunk` | nbd/nbd-server.c:314-317 | addresses that do not leave a hunk stay in one file at consecutive offsets |
| `Overlay.PageInHunk` | nbd/nbd-server.c:383-385 | no page crosses a hunk, so the cut of rdlen never applies |
| `Overlay.HunkBytes` | nbd/nbd-server.c:314-317 | a range inside a hunk shows the consecutive bytes of one file |
| `Overlay.ReadInPage` | nbd/nbd-server.c:327-341 | a read within a page succeeds exactly when its bytes are present, and shows them |
| `Overlay.MappedPage` | nbd/nbd-server.c:332-336 | a mapped page shows its slot, all of which is in the diff file |
| `Overlay.UnmappedPage` | nbd/nbd-server.c:337-341 | any other page shows its base file |
| `Overlay.OverwriteJoin` | nbd/nbd-server.c:366-390 | writing a request page by page is writing it at once |
| `SeekCache.FirstUnmapped` | nbd/nbd-server.c:331-341 | the first page of a range that is read from the base |
| `SeekCache.LastUnmapped` | nbd/nbd-server.c:331-341 | the last one |
| `SeekCache.PointSoFar` | nbd/nbd-server.c:284-299 | the cached position of a request under way is that of its last base read |
| `SeekCache.PositionInRequest` | nbd/nbd-server.c:314-343 | in a request only the first base read uses the position that the cache had; every later one is made where it should be, across a hunk boundary too |
| `SeekCache.SeenRead` | nbd/nbd-server.c:314-318 | an access delivers the bytes of the image that it sees, exactly when they are all there |
| `SeekCache.SeenRight` | nbd/nbd-server.c:284-299 | at the right position that is the image as it is |
| `SeekCache.SeenInRequest` | nbd/nbd-server.c:331-343 | every part of a request, with the cache as it finds it, sees what the request sees as a whole |
| `SeekCache.SeenByStep` | nbd/nbd-server.c:366-390 | the same for the pages of a write, whose copies are made between its own changes |
| `SeekCache.LostOnTheWay` | nbd/nbd-server.c:376-385 | a page lost in the middle of a write is lost from the image that the whole write sees |
| `SeekCache.AfterPart` | nbd/nbd-server.c:331-343 | one pass of the loop of a request adds one base read to the cache, or none |
| `SeekCache.SoundExactly` | nbd/nbd-server.c:284-299 | the cache is safe for every address of the export if and only if every file into which the cached position points stands there |
| `SeekCache.ReadsInHunk` | nbd/nbd-server.c:314-345 | the base reads of a request in one hunk leave the cached position at the last of them and its file ahead of it |
| `SeekCache.KeptExactly` | nbd/nbd-server.c:469-487 | after lastpoint += len the cache is sound if and only if the last base read had that length or the position left the export, and the other files into which it points stand there |
| `SeekCache.OneAccessKeepsExactly` | nbd/nbd-server.c:469-487 | for a request that is one access to one file, if and only if the other files into which the position points stand there |
| `SeekCache.RequestKeepsExactly` | nbd/nbd-server.c:469-487 | for a copy-on-write request in one hunk, from the page map, the cached position and the file positions before it: only its last base read counts |
| `SeekCache.ReadsSplit` | nbd/nbd-server.c:331-343 | a request that crosses into the next hunk is two requests, as far as the cache goes |
| `SeekCache.AcrossHunksKeepsExactly` | nbd/nbd-server.c:469-487 | the exact condition for a copy-on-write request that crosses a hunk boundary, from the page map, the cached position and the file positions before it |
| `Misled.SafeIsRight` | nbd/nbd-server.c:284-299 | the position used is the right one if and only if using the cache is safe |
| `Misled.RawReadExactly` | nbd/nbd-server.c:314-318 | a read at another position delivers the same bytes, whatever a file of this size holds, if and only if both positions are past its end |
| `Misled.RawWriteExactly` | nbd/nbd-server.c:350-354 | a write at another position leaves the same file, whatever file and data are, if and only if both are past the limit |
| `Misled.HarmlessSeesRight` | nbd/nbd-server.c:314-318 | an access at the right position, or with nothing at either, sees the image as it is |
| `Misled.MisledSeesWrong` | nbd/nbd-server.c:314-318 | for any other there are base files of these sizes of which it sees another byte |
| `Misled.SeesExactly` | nbd/nbd-server.c:337-342 | an access to the base sees the overlay as it is, whatever base files of these sizes hold, if and only if it is harmless |
| `CowModel.WriteJob.GroundIs` | nbd/nbd-server.c:376-386 | what a page is copied from, in the middle of a write, is what the whole write sees there |
| `CowModel.WriteJob.CopiesExactly` | nbd/nbd-server.c:382-385 | a page can be copied, with the cache as it is by then, if and only if the image that the whole write sees has all of it |
| `CowModel.WriteJob.Next` | nbd/nbd-server.c:366-390 | page after page, the steps of the loop lead from one intermediate server to the next: image, map, next slot and cache |
| `CowModel.WriteJob.Judge` | nbd/nbd-server.c:366-390 | one pass of the loop, done or failed, on values |
| `CowModel.WriteJob.Fails` | nbd/nbd-server.c:376-386 | a copy that fails leaves what is done by then on the image that the write sees, less the page |
| `CowModel.WriteJob.Ends` | nbd/nbd-server.c:366-392 | after the last page the write has succeeded and everything is as one write on the image that it sees |
| `CowModel.ReadJob.PartIs` | nbd/nbd-server.c:331-343 | each part of a read is seen as the whole read sees it |
| `CowModel.ReadJob.Next` | nbd/nbd-server.c:331-345 | page after page, the parts add up to the bytes of the image that the read sees; a part that is missing is missing there; the cache |
| `BlockServer.Server.constructor` | nbd/nbd-server.c:560-602 | after set-up the map is empty, the diff file too, the cache is sound, there are as many hunks of 1 GB as the export needs, or one, and an export of whole pages up to 4 GB reads as its base files: byte x is byte x % hunk size of file x / hunk size |
| `BlockServer.Server.HunkOf` | nbd/nbd-server.c:564-571 | every address of the export has an open hunk |
| `BlockServer.Server.MaybeSeek` | nbd/nbd-server.c:284-299 | seeks unless the cached position matches; exits past the export |
| `BlockServer.Server.RawRead` | nbd/nbd-server.c:314-318 | which bytes a raw read delivers, right or stale, how far, and the cache and the file positions afterwards |
| `BlockServer.Server.RawWrite` | nbd/nbd-server.c:350-354 | where a raw write puts its bytes, right or stale, and the cache and the file positions afterwards |
| `BlockServer.Server.CacheIs` | nbd/nbd-server.c:284-299 | the position used for an access, and the cache after it, in terms of lastpoint and the file offsets |
| `BlockServer.Server.PageFacts` | nbd/nbd-server.c:383-386 | a page of the export lies inside one open hunk |
| `BlockServer.Server.Offset32` | nbd/nbd-server.c:366-378 | page and slot offsets computed in 32 bits are exact |
| `BlockServer.Server.SlotOfPage` | nbd/nbd-server.c:374 | the slot of a mapped page lies inside the diff file, which is no longer than the export |
| `BlockServer.Server.SeekSlot` | nbd/nbd-server.c:370-375 | myseek goes to the page's slot |
| `BlockServer.Server.WriteMapped` | nbd/nbd-server.c:371-375 | overwriting a mapped page: the image changes on the piece only, and hunk positions stay |
| `BlockServer.Server.LoadPage` | nbd/nbd-server.c:382-386 | the page buffer gets what the file has at the position used, exactly when a whole page is there |
| `BlockServer.Server.TakeSlot` | nbd/nbd-server.c:377-378 | the page gets the next slot, and difffilelen does not wrap |
| `BlockServer.Server.WriteFresh` | nbd/nbd-server.c:376-389 | copying a page, from the right place or a stale one: succeeds exactly when the file has a whole page at the position used, and exactly then the overlay stays consistent; the image, the map, the next slot and the cache afterwards; on failure the page, mapped already, is lost |
| `BlockServer.Server.WritePiece` | nbd/nbd-server.c:371-388 | a piece of a page goes to its slot or to a fresh copy: the whole server afterwards |
| `BlockServer.Server.WritePage` | nbd/nbd-server.c:366-391 | one pass of the write loop: what is cut off the data, and the image, the map, the next slot and the cache afterwards |
| `BlockServer.Server.WriteStep` | nbd/nbd-server.c:366-391 | one pass of the loop takes the server from where the model of the write has it to the next page, or stops where it has to |
| `BlockServer.Server.WritePages` | nbd/nbd-server.c:366-391 | the whole write loop: written at the address on the image that the write sees, or failed exactly when some page cannot be copied, with what is written and lost then |
| `BlockServer.Server.CowWrite` | nbd/nbd-server.c:357-393 | any copy-on-write write, misled or not: the image afterwards is the one that the write sees with the data on exactly [a,a+len), and the new pages have the next slots in order; it succeeds exactly when every touched page is mapped or can be copied, and exactly then the overlay stays consistent; on failure what goes before some such page is written and that page is lost; no base file changes |
| `BlockServer.Server.Pages32` | nbd/nbd-server.c:358-364 | the page numbers computed in 32 bits are exact |
| `BlockServer.Server.ReadSlot` | nbd/nbd-server.c:332-336 | a read from the diff file always succeeds |
| `BlockServer.Server.ReadBase` | nbd/nbd-server.c:337-341 | a read from the base succeeds exactly when there are enough bytes at the position used, and delivers them |
| `BlockServer.Server.ReadPage` | nbd/nbd-server.c:327-343 | one pass of the read loop, from the slot of the page or from its base file at the position used |
| `BlockServer.Server.ReadStep` | nbd/nbd-server.c:327-343 | one pass takes the read on to the next page of the image that the whole read sees |
| `BlockServer.Server.ReadPages` | nbd/nbd-server.c:327-343 | the whole read loop: all bytes of the range on the image that the read sees, or failure exactly when one is missing there |
| `BlockServer.Server.CowRead` | nbd/nbd-server.c:320-347 | any copy-on-write read, misled or not, delivers [a,a+len) of the image that it sees, exactly when all of it is present there; it changes no file and no map entry; the cache afterwards |
| `BlockServer.Server.SingleFileCache` | nbd/nbd-server.c:280-299 | with one file the cache is sound exactly when it is outside the export or is the file position |
| `BlockServer.Server.CacheSoundExactly` | nbd/nbd-server.c:284-299 | the cache of the server is sound if and only if every hunk into which the cached position points stands there |
| `BlockServer.Server.PlainRead` | nbd/nbd-server.c:478-492 | a plain read delivers the bytes at its address, and the cache is unset or the true position before and after |
| `BlockServer.Server.PlainWrite` | nbd/nbd-server.c:465-477 | a plain write puts its bytes at its address, and the cache stays true |
| `BlockServer.Server.MoveCache` | nbd/nbd-server.c:469-487 | lastpoint += len, or -1 after an error, which always leaves a sound cache |
| `BlockServer.Server.ServeCowRead` | nbd/nbd-server.c:478-492 | any copy-on-write read as the main loop serves it, from one file or several: its result, the cache afterwards, and exactly when that is sound |
| `BlockServer.Server.ServeCowWrite` | nbd/nbd-server.c:465-477 | any copy-on-write write as the main loop serves it, from one file or several: its result, the cache afterwards, and exactly when that is sound |
| `BlockServer.Server.ServeHunkRead` | nbd/nbd-server.c:478-492 | any read without copy on write, from one file or several, also one that straddles a hunk or is misled: the bytes of the file of its address at the position used, the cache afterwards, and exactly when that is sound |
| `BlockServer.Server.ServeHunkWrite` | nbd/nbd-server.c:465-477 | any write without copy on write: the data that fits goes to that file at that position, nothing else changes, and the same about the cache |
| `CowRuns.Run` | nbd/nbd-server.c:320-494 | any run of reads and writes on a copy-on-write export of one file or several, whatever the cache: each request acts as on a flat image, but on the image that it sees; replies, image, page map, next slot and cache after each of them; it ends early only at a write that could not copy a page, with what is then written and lost; base files never change |
| `CowRuns.RunDelivers` | nbd/nbd-server.c:320-393 | for operation n of any run, from the bytes alone: a read succeeds exactly when all bytes that it asked for are there on the image that it sees, then returns just these, and changes nothing; a write puts its data on that image and changes no other byte |
| `CowRuns.RunOne` | nbd/nbd-server.c:465-492 | one request of a run, failing or not, misled or not |
| `CowRuns.ServeOp` | nbd/nbd-server.c:465-492 | a read or a write of the main loop against its effect on the flat image that it sees |
| `CowRuns.WhatIsSeen` | nbd/nbd-server.c:284-343 | every byte of the image that a request sees, in terms of lastpoint, file offset and file: only the first part read from the base can differ, and how |
| `CowRuns.NothingFromBase` | nbd/nbd-server.c:331-338 | a request whose pages are all in the diff file sees the image as it is |
| `CowRuns.SeesFlat` | nbd/nbd-server.c:284-343 | a request that the cache does not mislead sees the image as it is |
| `CowRuns.LastWriteWins` | nbd/nbd-server.c:320-393 | byte x of the flat image after n operations is that of the last write among them that covers it, else the byte at the start |
| `CowRuns.FlatWhileNotMisled` | nbd/nbd-server.c:320-393 | so up to the first request that is misled a run is one of a flat image: the image before each request, and byte by byte what a read of it returns |
| `CowRuns.SoundIsNotMisled` | nbd/nbd-server.c:284-299 | a sound cache, as at the start, misleads no request |
| `CowRuns.MisledExactly` | nbd/nbd-server.c:284-343 | a request sees the overlay as it is, whatever base files of these sizes hold, if and only if its first base read is at its right position or finds nothing at either position; this depends on the page map, the cached position, the file positions and the file sizes before it only |
| `CowRuns.TwoReads` | nbd/nbd-server.c:331-343 | what a read of two fresh pages makes of the cache |
| `CowRuns.ShownBytes` | nbd/nbd-server.c:320-347 | bytes that the image shows are the only ones it can deliver there |
| `CowRuns.FreshPageShowsFile` | nbd/nbd-server.c:337-341 | an unmapped page of a single-file export shows the file |
| `CowRuns.ReadTwoFreshPages` | nbd/nbd-server.c:320-347 | a read of two fresh pages leaves the cache one page ahead of the file |
| `CowRuns.StaleCopyOnWriteRead` | nbd/nbd-server.c:478-492 | after that, a read of page 3 by the main loop succeeds and delivers page 2, while the image has page 3 there |
| `CowRuns.StaleSecondFileRead` | nbd/nbd-server.c:478-492 | a read in the first file makes a read in the second one, by the main loop, succeed and deliver other bytes |
| `BlockProtocol.BERoundTrip` | nbd/nbd-server.c:437-447 | network byte order is lossless |
| `BlockProtocol.ParsePrint` | nbd/nbd-server.c:436-447 | the 28-byte request header decodes to what was encoded, for all field values |
| `BlockProtocol.OnTheWire` | nbd/nbd-server.c:436-447 | the fields of a request header, byte by byte, most significant byte first, and the bytes of its magic number |
| `BlockProtocol.FourBytes` | nbd/nbd-server.c:278-279 | how a number of 32 bits is sent |
| `BlockProtocol.Below32` | nbd/cliserv.h:30-60 | a length field is below 2^32 |
| `BlockProtocol.Reply` | nbd/nbd-server.c:422-423 | a reply has 16 bytes and ends with the handle |
| `BlockProtocol.HeaderBytes` | nbd/nbd-server.c:279-280 | the bytes of a reply header: magic number, error 0 for success and -1 for failure, handle |
| `BlockProtocol.TurnedDown` | nbd/nbd-server.c:436-464 | for every input: which headers end the session and how, and which requests get an error reply, in the order of the checks, with a signed length and a sum that wraps; any other kind is a read |
| `BlockProtocol.Verdict` | nbd/nbd-server.c:436-464 | the same for the answer to one header |
| `BlockProtocol.ReplyBytes` | nbd/nbd-server.c:458-492 | the reply to one request, byte by byte: error 0 exactly when it is inside the export, allowed, and there are enough bytes or there is room; the bytes of a read that works |
| `BlockProtocol.FileAfterByte` | nbd/nbd-server.c:465-477 | every byte of the file after one request, and its length |
| `BlockProtocol.LastWriteWins` | nbd/nbd-server.c:465-477 | a byte of the file after any requests is that of the last write inside the export that covers it, else the byte at the start |
| `BlockProtocol.ReplyInTurn` | nbd/nbd-server.c:424-493 | reply i is the reply to request i on the file as it then was |
| `BlockProtocol.AnswerOne` | nbd/nbd-server.c:436-493 | a well-formed request is answered by its one reply and consumes exactly its payload |
| `BlockProtocol.ServeOne` | nbd/nbd-server.c:428-493 | one request other than a rejected write with a payload gets, at the head of a stream, one reply, consumes 28 bytes and its payload, and leaves the rest to be served |
| `BlockProtocol.Framing` | nbd/nbd-server.c:422-493 | every stream of well-formed requests without rejected payloads gets one reply each in order, and the file ends as the writes leave it |
| `BlockProtocol.ReplyShape` | nbd/nbd-server.c:458-492 | reply i, byte by byte: magic number, error 0 exactly when request i can be carried out on the file as it then was and -1 otherwise, the handle of request i, and the bytes of a read that worked; failures affect no later reply |
| `BlockProtocol.StatusesDiffer` | nbd/nbd-server.c:279-280 | success and failure can be told apart |
| `BlockProtocol.RejectedWrite` | nbd/nbd-server.c:459-464 | a rejected write does not consume its payload: it is served as the next requests |
| `BlockProtocol.FramedExactly` | nbd/nbd-server.c:428-493 | a well-formed request keeps the framing of whatever follows it if and only if it is not a rejected write with a payload |
| `BlockProtocol.RepeatedIsSilent` | nbd/nbd-server.c:428-493 | if a payload had no effect before any input, nor would any number of copies of it |
| `BlockProtocol.LongInputAnswered` | nbd/nbd-server.c:428-493 | an input long enough for any request is answered or ends the session otherwise than by its end |
| `BlockProtocol.RejectedPayloadDisconnects` | nbd/nbd-server.c:436-464 | such a payload can end the session whatever follows |
| `BlockSession.Connection.ReadIt` | nbd/nbd-server.c:123-133 | exactly len bytes however the stream is chopped; fails exactly when it ends first |
| `BlockSession.Connection.WriteIt` | nbd/nbd-server.c:135-145 | all bytes in order however few are taken at a time |
| `BlockSession.GreetingBytes` | nbd/nbd-server.c:403-419 | the 152 bytes of the greeting |
| `BlockSession.Session.Handle` | nbd/nbd-server.c:436-493 | one request, with the seek cache: the same reply, file and consumed input as the flat file gives, a length with its sign bit set included |
| `BlockSession.Session.HandleWrite` | nbd/nbd-server.c:465-477 | the write branch against the flat file |
| `BlockSession.Session.HandleRead` | nbd/nbd-server.c:478-492 | the read branch against the flat file |
| `BlockSession.Session.Step` | nbd/nbd-server.c:428-493 | one pass of the loop is one unfolding of the flat-file server |
| `BlockSession.Session.Loop` | nbd/nbd-server.c:428-493 | the loop ends as the flat-file server does, for every input stream |
| `BlockSession.Session.MainLoop` | nbd/nbd-server.c:395-494 | greeting, byte by byte, and loop: for every input, chopped in any way, output, file and stop reason are those of the flat-file server, so the skipped seeks never show |
| `NorFlash.MeetBlank` | aptools/update.c:285-296 | a blank cell takes any value, and writing 0xFF changes nothing |
| `NorFlash.MeetBits` | aptools/update.c:285-296 | bit by bit: a written cell has just the bits that were set before and are set in what is written |
| `NorFlash.ErasedJoin` | aptools/update.c:228-261 | erasing two adjoining ranges is erasing both |
| `NorFlash.ProgrammedJoin` | aptools/update.c:285-296 | writing piece after piece is writing the whole |
| `NorFlash.NextBoundary` | aptools/update.c:228-261 | between a block start and a later boundary lies the whole block, and its end is a boundary, across regions too |
| `NorFlash.BoundaryIs` | aptools/update.c:113-150 | what a block start and a boundary are, in offsets, numbers and sizes |
| `NorFlash.Device.Write` | aptools/update.c:289 | a write clears bits where it goes, short at the end of the device |
| `NorFlash.Device.Erase` | aptools/update.c:252-258 | an erase of exactly one block blanks it, and anything else is refused |
| `FlashUpdate.BoundaryCheck` | aptools/update.c:113-160 | true exactly on block starts and the end of the flash, with the region and the block |
| `FlashUpdate.AlignedInRegion` | aptools/update.c:140-145 | alignment measured from the end of a region is alignment from its start |
| `FlashUpdate.AlignedBlock` | aptools/update.c:140 | ... and every block start passes that test |
| `FlashUpdate.EraseBlockAt` | aptools/update.c:231-260 | one pass of the erase loop erases one block; both of its failures are unreachable |
| `FlashUpdate.RegionErase` | aptools/update.c:167-264 | refuses a range that is not on boundaries; else every byte of it is erased once and no other byte |
| `FlashUpdate.Copy` | aptools/update.c:271-298 | the image is programmed at start whatever pieces it is read in; the result codes 0, 2 and 4, and what is on the flash then |
| `FlashUpdate.CopyStep` | aptools/update.c:285-296 | one pass of the copy loop |
| `FlashUpdate.BoundaryInside` | aptools/update.c:129-147 | a boundary lies in the flash |
| `FlashUpdate.GetConfig` | aptools/update.c:94-106 | the configuration as it was |
| `FlashUpdate.RestoreConfig` | aptools/update.c:396-408 | the configuration blocks are erased and rewritten, if they can be erased by themselves; which bytes are erased once more |
| `FlashUpdate.EraseAndWrite` | aptools/update.c:383-394 | erase, then the image, with the exit codes and the erase counts |
| `FlashUpdate.Update` | aptools/update.c:380-418 | the whole program leaves the flash, the exit status and the erase count of every byte that Updated and UpdatedWear give; the status is 1 exactly when the range is not on boundaries, else 4 exactly when an image runs past the end, else 0 |
| `FlashUpdate.UpdatedByte` | aptools/update.c:380-418 | the final value of every byte after any run, with any device, range, image and exit status: saved configuration, image, 0xFF on the rest of the erased range, unchanged elsewhere; and what an image longer than the range does |
| `FlashUpdate.UpdatedWearByte` | aptools/update.c:380-418 | the erase count of every byte after any run: one more in the range, and one more in the configuration blocks when they are put back |
| `FlashUpdate.ConfigKeptExactly` | aptools/update.c:380-418 | every configuration survives if and only if the range cannot be erased at all, or the configuration is put back (with -s, in blocks that can be erased by themselves, after an image that fits), or the run does not touch it |
| `FlashUpdate.KeptConfig` | aptools/update.c:396-408 | one direction, for given contents |
| `FlashUpdate.LostByte` | aptools/update.c:396-408 | the other: contents whose configuration is lost, for any touched byte |
| `FlashUpdate.UniformBlocksLoseConfig` | aptools/update.c:396-408 | in a flash of sixteen 64 KB blocks, -s over the whole flash leaves it blank with exit status 0 |
| `FlashUpdate.LongImageLosesConfig` | aptools/update.c:388-394 | an image that is one byte too long ends the run with status 4 and itself in place of the configuration |
| `WriteFlash.BlockUpUnique` | alios/wrflash/wrflash.c:93-124 | the first block end at or after an address is the only one less than a block above |
| `WriteFlash.CardBlock` | alios/wrflash/wrflash.c:116-124 | a multiple of the block size can be erased exactly when it is below the end of the card |
| `WriteFlash.EraseBlock` | alios/wrflash/wrflash.c:116-123 | the erase is tried three times and fails exactly past the card |
| `WriteFlash.EraseAhead` | alios/wrflash/wrflash.c:93-130 | erases just the blocks up to the one with the last byte, after asking once |
| `WriteFlash.EraseAfter` | alios/wrflash/wrflash.c:93-130 | erasing above what has been written commutes with that writing |
| `WriteFlash.WritePiece` | alios/wrflash/wrflash.c:90-145 | one pass of the outer loop: every block a piece needs is erased before it is written; nothing below the first block changes; exactly when it fails, what is on the card then and how much was written |
| `WriteFlash.FormatStep` | alios/wrflash/wrflash.c:90-145 | one read and the pass that it leads to: what is read so far is written, or the run has failed as it had to |
| `WriteFlash.FormatFrom` | alios/wrflash/wrflash.c:90-146 | the loop over every way to chop the input |
| `WriteFlash.FormatPartition` | alios/wrflash/wrflash.c:57-150 | the final contents and the erase counts for every input, with and without erasing; the exact condition of success; a failing run without erasing has written just what fits on the card, one that erases has erased up to the end of the card and written on erased ground only, and a refusal changes nothing |
| `WriteFlash.FormattedByte` | alios/wrflash/wrflash.c:87-146 | every byte: with erasing, the input where it went, 0xFF in the rest of the touched blocks, unchanged elsewhere, and touched blocks erased once; without, the input over the old bits; the touched blocks are those from the block of the first byte to that of the last |
| `WriteFlash.StoppedByte` | alios/wrflash/wrflash.c:87-146 | every byte and its erase count after a failing run |
| `FlashImage.LE32RoundTrip` | scripts/build_flash.pl:178 | the stored kernel address reads back |
| `FlashImage.KernelPad` | scripts/build_flash.pl:104 | 1 to 512 bytes of padding end the kernel on a sector |
| `FlashImage.OutputFile.PadFile` | scripts/build_flash.pl:157-170 | appends that many 0xFF bytes, none for a negative number |
| `FlashImage.OutputFile.MakeKConf` | scripts/build_flash.pl:173-192 | appends address, command line and a zero |
| `FlashImage.BuildFlash` | scripts/build_flash.pl:102-128 | the script leaves the image that Image describes, for every loader file and all other parts |
| `FlashImage.BelowConfigLength` | scripts/build_flash.pl:106-117 | how much lies below the configuration block, with an oversized root file system too |
| `FlashImage.ImageSize` | scripts/build_flash.pl:102-128 | the image has the size of the flash if and only if the archive takes one block and the excess of the root file system fits into the configuration sector with the command line; it is never smaller |
| `FlashImage.FitsExactly` | scripts/build_flash.pl:102-128 | everything fits if and only if the image has the size of the flash and the root file system leaves room for the kernel |
| `FlashImage.KernelStart` | scripts/build_flash.pl:106-114 | the kernel starts at its place, or right after a root file system that reaches past it |
| `FlashImage.BeforeKernel` | scripts/build_flash.pl:106-113 | 0xFF from the root file system to the kernel |
| `FlashImage.AfterKernel` | scripts/build_flash.pl:114-128 | what follows the kernel, with an oversized root file system too |
| `FlashImage.KernelPlacedExactly` | scripts/build_flash.pl:106-125 | the address in the configuration block leads to the kernel, whatever the parts hold, if and only if the root file system leaves room for it or the kernel is empty |
| `FlashImage.Misplaced` | scripts/build_flash.pl:113-125 | with too long a root file system and a kernel that is not empty, parts of these sizes for which it does not |
| `FlashImage.LocationAligned` | scripts/build_flash.pl:104-107 | the kernel address is on a sector, and the kernel ends within a sector below the configuration blocks |
| `FlashImage.Layout` | scripts/build_flash.pl:102-128 | every part of a fitting image: root file system, kernel, archive at size-32768, configuration block at size-16384, loader in the top 15872 bytes |
| `FlashImage.KConfBytes` | scripts/build_flash.pl:173-192 | the configuration block: the address, low byte first, the command line, a zero |
| `BootLoader.RemapOneToOne` | alios/alios.S:750-753 | the wrap of addresses above 4 MB is injective on the loader's addresses and stays in the DRAM |
| `BootLoader.RemapOnto` | alios/alios.S:750-753 | ... and reaches all of it |
| `BootLoader.SplitRecombines` | alios/alios.S:755-769 | the 15/8/3-bit split of an address loses nothing, and no sector crosses a window |
| `BootLoader.CopiedJoin` | alios/alios.S:821-855 | flat copies of adjoining ranges join |
| `BootLoader.Machine.SetupB` | alios/alios.S:744-771 | the DRAM window is enabled and stands on the remapped destination, which moves on by a sector |
| `BootLoader.Machine.SetupA` | alios/alios.S:744-771 | the ROM window stands on the source, which moves on by a sector |
| `BootLoader.Machine.CopySector` | alios/alios.S:821-855 | one sector through the windows is one flat copy |
| `BootLoader.Machine.MoveWords` | alios/alios.S:848-852 | 256 words move, and no other byte changes |
| `BootLoader.Machine.LoadSectors` | alios/alios.S:805-865 | n sectors are one flat copy of n*512 bytes, and no other byte changes |
| `BootLoader.Machine.LoadConfig` | alios/alios.S:873-897 | the configuration sector is in its buffer |
| `BootLoader.Machine.Patch` | alios/alios.S:953-1012 | the stores are Patched |
| `BootLoader.Machine.LoadSetup` | alios/alios.S:929-951 | boot sector and as many setup sectors as it asks for |
| `BootLoader.Machine.LoadInfo` | alios/alios.S:929-1012 | boot sector and setup sectors from the configured address, then patched; the memory size that the kernel is told |
| `BootLoader.Machine.LoadImages` | alios/alios.S:788-865 | the kernel sectors are copied to 1 MB |
| `BootLoader.SectorsSuffice` | alios/alios.S:795-799 | the rounded sector count holds the kernel if and only if there are at most 65504 paragraphs, and then wastes less than a sector |
| `BootLoader.PatchedByte` | alios/alios.S:953-1012 | patching changes its own bytes only, keeps the sizes, and puts in the command line (255 bytes and a zero), the memory size and the kernel start |
| `BootLoader.PatchedMarks` | alios/alios.S:953-1012 | the marks for the command line and for the loader, and what is cleared |
| `BootLoader.PatchedMemory` | alios/alios.S:977-987 | the word at offset 2 is the memory in KB less 640, in 16 bits, low byte first |
| `Boot.ConfigBlock` | scripts/build_flash.pl:173-192 | the loader's configuration address holds the kernel address and the command line of the image |
| `Boot.KernelInImage` | scripts/build_flash.pl:102-128 | the kernel in an image is where the loader can load it, with all sectors in the ROM |
| `Boot.CopiesLoad` | alios/alios.S:788-951 | the copies add up to the loaded kernel |
| `Boot.CommandLineLoads` | alios/alios.S:994-1003 | the command line gets from the configuration block through the buffer to the setup segment |
| `Boot.HeaderSizeSurvives` | alios/alios.S:953-1012 | patching leaves the kernel size that is read afterwards |
| `Boot.LoadHead` | alios/alios.S:873-1012 | load_config and load_info on a bootable ROM |
| `Boot.LoadKernel` | alios/alios.S:788-1012 | on every bootable ROM the three routines place boot, setup and body sectors and the command line, fill in the header with the memory size, and change no other byte of the memory than those and the configuration buffer |
| `Boot.AllLoaded` | alios/alios.S:788-1012 | the same about the memory before and after |
| `Boot.HeaderStays` | alios/alios.S:788-1012 | what the kernel finds in its header: command line, loader type, start address, memory size, and what is cleared |
| `Boot.LoadedBytes` | alios/alios.S:788-1012 | all of the loaded memory in plain addresses |
| `Boot.ConfigIsArchive` | aptools/update.c:396-408 | in a flash of 1 MB the configuration that the updater keeps is the archive that the builder puts in |
| `Boot.KeptBeside` | alios/alios.S:788-1012 | memory outside the loaded parts, the patched bytes and the configuration buffer is as before |
| `Boot.LoadImage` | alios/alios.S:788-1012 | builder and loader together, in terms of the loaded kernel |
| `Boot.LoadFromImage` | alios/alios.S:788-1012 | builder and loader together, in plain addresses: for all parts that fit, boot and setup part are at 0x90000 but for the header fields, the rest of the kernel at 1 MB, the command line at 0x90800 with a zero, the memory size is right, and every other byte of the memory is left alone |
| `DramProbe.DecodeLine` | alios/detect_dram.S:195-204 | a single-bit address reaches cell 0 exactly when its line is ignored |
| `DramProbe.Bank.CellDecoded` | alios/detect_dram.S:119-147 | the window setup reaches the cell of the address |
| `DramProbe.Bank.CellOfLine` | alios/detect_dram.S:195-204 | the probed address aliases address 0 exactly when its line is ignored |
| `DramProbe.Bank.NumBits` | alios/detect_dram.S:170-237 | on RAM that ignores any set of lines, the count of the first ignored line of the table; 0 on a bank whose reads are constant |
| `DramProbe.FirstIgnoredAt` | alios/detect_dram.S:61-75 | that count is the one of the entry that is ignored while none before it is, or of the last entry |
| `DramProbe.LoaderTables` | alios/detect_dram.S:61-75 | the tables in the loader end and are in reach, and report an empty bank as an error |
| `DramProbe.Columns` | alios/detect_dram.S:61-67 | a bank with 8 to 12 columns, which ignores just the lines above them, is reported with that number; one that ignores line 8 is an error |
| `DramProbe.Rows` | alios/detect_dram.S:69-75 | the number of rows for every set of ignored lines |
| `Menu.StepsKeepMargins` | conf/lxdialog/menubox.c:306-339 | single steps never lose sight of the items next to the cursor, with three rows or more |
| `Menu.StartPlace` | conf/lxdialog/menubox.c:239-260 | the starting scroll and row for every item count, height and saved file, in range and on the item: the saved scroll if it shows the item, else the item in the middle but where the list starts or ends |
| `Menu.DefaultItem` | conf/lxdialog/menubox.c:231-235 | the last item whose tag is the current one, or the first item |
| `Menu.FindHot` | conf/lxdialog/menubox.c:282-296 | the row that a letter selects: the first below the cursor, else the first from the top |
| `Menu.FirstFrom` | conf/lxdialog/menubox.c:285-289 | the first row from a given one with that letter |
| `Menu.HotRow` | conf/lxdialog/menubox.c:282-296 | a selected row has the letter; none is selected only for y, n, m or a letter that no row has |
| `Menu.RowFound` | conf/lxdialog/menubox.c:282-296 | the first row below the cursor with the letter, or else the first row; none for y, n and m, or when no row has it |
| `Menu.SelectedRow` | conf/lxdialog/menubox.c:282-296 | a row selected by a key is a visible item with that letter |
| `Menu.Pressed` | conf/lxdialog/menubox.c:277-385 | the list model keeps the cursor among the visible items for every key |
| `Menu.KeyDoes` | conf/lxdialog/menubox.c:277-385 | what each key does to scroll and cursor, in plain arithmetic and letters: steps and when they scroll, pages, letters, commands |
| `Menu.OneKeyMore` | conf/lxdialog/menubox.c:277-385 | the keys of a run count in order |
| `Menu.MenuBox.constructor` | conf/lxdialog/menubox.c:176-266 | the box opens painted, with the cursor on the item; the saved scroll position where that shows it, else the item in the middle but where the list starts or ends |
| `Menu.MenuBox.ScrollDown` | conf/lxdialog/menubox.c:308-316 | scrolling the window down a row equals a repaint one item further up |
| `Menu.MenuBox.ScrollUp` | conf/lxdialog/menubox.c:328-337 | scrolling it up equals a repaint one item further down |
| `Menu.MenuBox.MoveUp` | conf/lxdialog/menubox.c:306-318 | scroll plus row goes to max(c-1,0), scrolling within two rows of the top edge |
| `Menu.MenuBox.MoveDown` | conf/lxdialog/menubox.c:320-339 | scroll plus row goes to min(c+1,n-1), scrolling within two rows of the bottom edge |
| `Menu.MenuBox.MovePageUp` | conf/lxdialog/menubox.c:341-354 | scroll plus row goes to max(c-max_choice,0), and the list scrolls first |
| `Menu.MenuBox.MovePageDown` | conf/lxdialog/menubox.c:356-370 | scroll plus row goes to min(c+max_choice,n-1), and the list scrolls first |
| `Menu.MenuBox.Move` | conf/lxdialog/menubox.c:306-373 | the choice between the moves |
| `Menu.MenuBox.Press` | conf/lxdialog/menubox.c:277-385 | one pass of the key loop: ranges kept, the cursor as on a plain list or on the item of the letter, rows equal to a full repaint with one row highlighted |
| `Menu.PressOne` | conf/lxdialog/menubox.c:277-385 | one key against the list model of first visible item and cursor |
| `Menu.Run` | conf/lxdialog/menubox.c:277-385 | the same over every run of keys, letters, minus and plus included, and the rows shown afterwards |
| `Menu.Reopen` | conf/lxdialog/menubox.c:239-266 | a box opened again on the selected item with the saved scroll position shows the same rows |
| `ConfigFile.SpaceCodes` | cgi/utils.c:83-91 | which characters isspace takes |
| `ConfigFile.TrimCuts` | cgi/utils.c:83-91 | trimming takes off spaces only, and all of them at both ends |
| `ConfigFile.TrimExactly` | cgi/utils.c:83-91 | trimming keeps a value exactly when it neither starts nor ends with a space |
| `ConfigFile.Index` | cgi/utils.c:96-107 | the first keyword that the line starts with, or their number |
| `ConfigFile.ReadLine` | cgi/utils.c:112-139 | readline takes the next line without carriage returns, at most 4095 characters, and reports the end of the file |
| `ConfigFile.LineTakes` | cgi/utils.c:112-139 | a line is what is printed in the characters taken, which end at the first newline, with the 4095th character kept, or with the file |
| `ConfigFile.ArgvIndex` | cgi/utils.c:96-107 | the search loop finds that index |
| `ConfigFile.CutTrailing` | cgi/utils.c:88-90 | the loop that cuts spaces at the end never passes the first character |
| `ConfigFile.RetrieveValue` | cgi/utils.c:83-91 | the value is what follows the keyword, trimmed |
| `ConfigFile.ReadLineValue` | cgi/utils.c:63-78 | one line changes one value, or none for a comment or blank line |
| `ConfigFile.NothingSet` | cgi/utils.c:61-66 | a blank line and a comment have no effect |
| `ConfigFile.KeywordSet` | cgi/utils.c:63-91 | any other line sets the first keyword that follows its leading spaces, to what comes after as many characters of the whole line; an unknown keyword is an error |
| `ConfigFile.ReadCfg` | cgi/utils.c:56-70 | reading a file leaves the values of ReadAll |
| `ConfigFile.UnfinishedLine` | cgi/utils.c:56-70 | a short last line without a newline counts for nothing |
| `ConfigRoundTrip.PrintedText` | cgi/setup.h:60-62 | a setting is printed as keyword, value and newline, the items one after the other |
| `ConfigRoundTrip.LineTaken` | cgi/utils.c:112-139 | a line that fits is taken whole; one that just fills the buffer leaves its newline |
| `ConfigRoundTrip.ReadsLine` | cgi/utils.c:61-67 | a printed line that fits, even exactly, has just its own effect |
| `ConfigRoundTrip.Found` | cgi/utils.c:96-107 | in a prefix-free table a printed line is filed under its own keyword |
| `ConfigRoundTrip.FoundExactly` | cgi/utils.c:96-107 | every printed line is filed under its own keyword, whatever the value, if and only if the table is prefix-free |
| `ConfigRoundTrip.Confused` | cgi/utils.c:96-107 | of two comparable keywords the later one is misread for some value |
| `ConfigRoundTrip.ItemEffect` | cgi/setup.h:60-62 | a printed setting stores its value trimmed, and a comment or blank line nothing |
| `ConfigRoundTrip.ReadsBack` | cgi/utils.c:56-70 | reading a printed file applies its lines in order |
| `ConfigRoundTrip.Applied` | cgi/utils.c:75-78 | after lines that carry the given values, each value that has a line is that value trimmed and the others are as before |
| `ConfigRoundTrip.RoundTrip` | cgi/utils.c:56-139 | for any prefix-free table, any order, repetitions, comments and blank lines and any old values, the reader gets every value without the spaces at its ends and otherwise whole: the printed values if and only if none has such spaces |

## Left out

- BlockServer.Server.constructor: set-up is modelled for every export, but the overlay is claimed to be consistent only for whole pages, up to 4 GB, with a file-size limit that leaves the diff file room for every page; the page map has no entry for a partial last page, and page numbers and diff offsets of larger exports wrap in 32 bits.
- BlockServer.Server.CowWrite: those exports, and requests of 1 byte to 1 MB inside the export.
- BlockServer.Server.CowRead: under the same conditions; where the files stand after a read that fails is not stated, only that the main loop then drops the cached position.
- BlockServer.Server.ServeHunkRead: requests whose address has an open file; a request of length 0 at the very end of the export may have none.
- BlockServer.Server.ServeHunkWrite: likewise.
- CowRuns.Run: request by request rather than through the byte stream of the main loop; the program goes on after a page that could not be copied, and the run stops there.
- BlockSession.Session.MainLoop: single-file exports without copy on write; a length with the sign bit set whose sum with the address wraps around to a place inside the export, a read that leaves no room for the reply header in the buffer, and an address that makes that sum wrap to one that the cache takes for "unset" end the modelled session as `Undefined`, because the C program has no defined behaviour from there on.
- BlockProtocol.Framing: rejected writes with a payload are excluded, since the program does not consume it; `FramedExactly` says that these are all that break the framing, and `RejectedWrite` what then happens.
- FlashUpdate.Update: region tables without gaps, with at least one block in each region; addresses that wrap in 32 bits, read errors, argument parsing, and the reboot are not modelled.
- WriteFlash.FormatPartition: a card of one region that starts at 0, and no read errors or 32-bit wrap-around; the question is answered the same way whenever it is asked.
- Boot.LoadFromImage: the 1 MB flash, whose configuration block is at the address compiled into the loader; kernels whose boot sector describes them, with setup code below the configuration buffer.
- DramProbe.Bank.NumBits: a bank either ignores a set of address lines or returns a constant; the unsuffixed comparison in the loop is taken to be on words.
- Menu.MenuBox.constructor: at least one item and one visible row; an item's hot key is a parameter (`first_alpha` and the text of items are not part of this model), and so are neither arrows, buttons nor the keys that close the box.
- Pager.TextBox.constructor: a regular file without NUL characters that does not change, and at least one row; keys are modelled by what they do, not by the characters that stand for them.
- ConfigFile.ReadCfg: an open file without NUL characters; where the program would store past its table for an unknown keyword, it reports failure.
- ConfigRoundTrip.RoundTrip: lines of at most 4095 characters with their keyword, keywords that start with neither a space nor `#`; longer lines are split by the reader.
- Files whose disk fills up or fails are modelled by one size limit on writes; reads are short at the end of a file only.
- Sockets, forking, authorization and the client of the block device, and the compressed block server `nbd/gznbd/gznbd.c`.
- `linux/nbd.h`, which declares the request and reply structures, is not part of this model beyond their field widths and magic numbers.
- Drawing, colours, box geometry, position percentages and the other dialogs of `conf/lxdialog`, which would only add easy members.
- HTML generation and menu dispatch in `cgi`, and all of `cgi-old`.
- UART, interrupt controller, LED, EDO detection and refresh set-up, `ConfigureDRAM` and the memory totals in `alios`; the total is a parameter of `LoadInfo`.
- Build scripts other than the image builder, kernel configurations and patches.

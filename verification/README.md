# Serverless P2P file sharing: discovery and transfer engine

A Dafny model of the sequential logic inside `p2p_file_share.py`, a tkinter
application that lets machines on one LAN find each other by UDP broadcast and
send files to each other over TCP. Three parts are modelled:

- **Discovery** (`discovery.dfy`, `registry.dfy`). Every five seconds a node
  broadcasts the text `"p2p:" + address`. The listener keeps datagrams that start
  with `"p2p:"`. It takes `msg.split(":")[1]` as the address and drops the node's
  own address. It then upserts `peers[address] = now`. The peer list shows the
  addresses heard from less than `2 * DISCOVERY_INTERVAL` seconds ago, in the
  order they were first heard. Python's `str.split` is modelled exactly (`Split`,
  proved to be the inverse of `JoinWith`). The peer table is a class
  `PeerRegistry` holding a `map<string, int>` and the insertion order of its keys.
- **Transfer framing** (`transfer.dfy`). A connection is a class `Connection`. It
  holds the sequence of results its `recv` calls will return, and a log of
  everything read, written and closed on it. The receiver reads the path, answers
  `"OK"`, and appends reads to the file until the first empty read. The sender
  opens one connection per item, in order. On each it sends the path, reads and
  ignores the answer, then sends the file in reads of at most `BUFFER_SIZE`
  (8192) bytes.
- **Selection and the send guard** (`selection.dfy`). `select_files` and
  `select_folder` build the pending list of `(source, relative path)` items.
  `select_folder` replaces the list only when the folder holds a regular file.
  `send_file_to_selected_peer` refuses to start without a selected peer or
  without pending files.

The clock, the node's own address, the dialogs' results, the directory listing,
the file system (a map from path to bytes) and whether a connection attempt
succeeds are all parameters.

Two details of the code that the model keeps as they are:
- The address is `msg.split(":")[1]`, the text between the first and second
  colon, so an address containing `:` is cut short (`ParseCutsAtColon`).
- When the source file cannot be opened, the exception skips `s.close()`
  (p2p_file_share.py:98, 104); when the file cannot be created, the receiver
  skips `conn.close()` (p2p_file_share.py:68-69, 75).

## Model

| member | source | states |
|---|---|---|
| Discovery.Split | p2p_file_share.py:126 | `str.split(sep)`: at least one piece, no piece contains the separator, and joining the pieces with the separator gives back the input |
| Discovery.SplitJoin | p2p_file_share.py:126 | splitting a text joined from separator-free pieces returns exactly those pieces, so `Split` is the inverse of `JoinWith` |
| Discovery.SplitHead | p2p_file_share.py:126 | the first piece is the longest separator-free prefix of the text |
| Discovery.Announcement | p2p_file_share.py:115 | the broadcast text passes the listener's `"p2p:"` filter and carries the local address after the prefix |
| Discovery.ParseAnnouncement | p2p_file_share.py:125-126 | a result exists iff the message starts with `"p2p:"`; the result is the text after the prefix up to the next colon or the end; `"p2p:"` alone parses to `""` |
| Discovery.FormatParseRoundTrip | p2p_file_share.py:115-126 | parsing the announcement of a colon-free address gives that address back |
| Discovery.ParseCutsAtColon | p2p_file_share.py:126 | an announced address that contains a colon is cut at its first colon |
| Registry.Accept | p2p_file_share.py:125-127 | a datagram is recorded iff it parses and its address differs from the node's own; the recorded address is the parsed one |
| Registry.ActiveView | p2p_file_share.py:145-147 | an address is in the view iff it is in the table and `now - last_seen < 2 * DISCOVERY_INTERVAL`; the view keeps the table order (a subsequence of it) and repeats no address when the table order repeats none |
| Registry.PeerRegistry.constructor | p2p_file_share.py:19 | the table starts empty |
| Registry.PeerRegistry.Record | p2p_file_share.py:128 | upsert: `peers[ip] = now`, every other entry unchanged; a new address goes last in the order, a repeat one keeps its place |
| Registry.PeerRegistry.Receive | p2p_file_share.py:122-129 | records iff `Accept` yields an address, upserting its time and appending it to the order when new; otherwise table and order are unchanged; nothing is ever removed; if the own address was absent it stays absent |
| Registry.PeerRegistry.ActivePeers | p2p_file_share.py:142-150 | the peer list shows exactly the fresh addresses, each once, in the order they were first heard; stale entries stay in the table |
| Registry.RecordedPeerExpires | p2p_file_share.py:144-147 | after recording `ip` at `t` into a consistent table, `ip` is in the view computed at `t`, and absent from the view computed at any `later >= t + 2 * DISCOVERY_INTERVAL` if not heard again |
| Registry.SelfNeverActive | p2p_file_share.py:127-147 | the own address never shows when every insert went through the filter |
| Registry.OwnAnnouncementAcceptedWhenAddressesDiffer | p2p_file_share.py:112-140 | a node's own announcement, made with the host-name address, passes a filter set to a different route address |
| Registry.OwnAnnouncementDropped | p2p_file_share.py:127 | with one address for announcing and filtering, the own announcement is dropped and any other colon-free address is accepted |
| Transfer.Connection.constructor | p2p_file_share.py:59 | a new connection has the given pending reads and an empty log |
| Transfer.Connection.Recv | p2p_file_share.py:71 | `recv` returns the next pending read, or an empty read once the peer has closed, and logs it |
| Transfer.Connection.Send | p2p_file_share.py:103 | `send`/`sendall` logs the whole payload and leaves the pending reads alone |
| Transfer.Connection.Close | p2p_file_share.py:104 | `close` is logged |
| Transfer.BodyChunks | p2p_file_share.py:70-73 | the file part of a stream is the longest prefix of non-empty reads; the read after it, if any, is empty |
| Transfer.BodyOfClosedStream | p2p_file_share.py:70-74 | however the sender's bytes are cut into non-empty reads, the receiver's file part is exactly those reads, whatever follows the empty read |
| Transfer.HandleIncomingFile | p2p_file_share.py:62-78 | reads the path, sends `"OK"`, stores the concatenation of the reads before the first empty one, closes; the log is exactly that sequence; if the file cannot be created it stops right after `"OK"`; either way `"OK"` is the only thing it writes |
| Transfer.ReceiveBody | p2p_file_share.py:70-74 | the receive loop's file content is the concatenation of the reads before the first empty one, and it stops at that read |
| Transfer.ServerAnswersOnce | p2p_file_share.py:64-74 | the receiver writes exactly one payload, `"OK"`, right after the path and before any file read |
| Transfer.ChunkedSpec | p2p_file_share.py:99-103 | the file's reads concatenate to its bytes; each is non-empty and at most `BUFFER_SIZE`; all but the last are full |
| Transfer.SendBody | p2p_file_share.py:98-103 | the send loop writes exactly the file's reads, in order |
| Transfer.SendItem | p2p_file_share.py:94-104 | path, then the answer read, then the file's reads, then close; a file that cannot be opened stops the item after the answer; exactly one read is consumed |
| Transfer.EncodeChar | p2p_file_share.py:96 | UTF-8 encoding of one character: one to four bytes, an ASCII character as its own code |
| Transfer.EncodeText | p2p_file_share.py:96 | `str.encode()`: between one and four bytes per character; a text of ASCII characters encodes to exactly their codes |
| Transfer.ClientServerRoundTrip | p2p_file_share.py:64-104 | fed what the sender wrote for one item with a non-empty relative path, the receiver gets the encoded path as a non-empty first read and stores exactly the file's bytes |
| Transfer.SendFiles | p2p_file_share.py:91-107 | one connection per item in list order, each logging the item's full exchange; success with the item count iff every connection and every file open succeeds; otherwise it stops at the first failing item, and earlier items stay sent |
| Selection.Basename | p2p_file_share.py:155 | the result is the last path component: no `/`, a suffix of the path, preceded by `/` or the start |
| Selection.LastComponentUnique | p2p_file_share.py:155 | a path has only one last component, so `Basename` is fully determined |
| Selection.PathJoin | p2p_file_share.py:165-167 | a second argument starting with `/` replaces the first; otherwise the result starts with the first and ends with the second, with a `/` inserted between them exactly when the first is non-empty and does not already end in `/` |
| Selection.FileItems | p2p_file_share.py:155 | one item per chosen path, in order, with that path as source and its last component as relative path |
| Selection.FolderItemsMembers | p2p_file_share.py:164-168 | an item is in the folder list iff it comes from a listing entry that is a regular file |
| Selection.FolderRelPath | p2p_file_share.py:163-167 | for a folder with a name, each relative path is `folder_name + "/" + filename` |
| Selection.PendingSend.constructor | p2p_file_share.py:20 | the pending list starts empty |
| Selection.PendingSend.SelectFiles | p2p_file_share.py:152-155 | a non-empty choice replaces the list with `FileItems`; an empty one leaves it |
| Selection.PendingSend.SelectFolder | p2p_file_share.py:159-170 | the list becomes the folder's items when the dialog gave a folder and at least one regular file qualifies; otherwise it is untouched |
| Selection.PendingSend.SendToSelectedPeer | p2p_file_share.py:80-89 | refuses with "no peer" iff none is selected, then with "no files" iff the list is empty; otherwise starts a send of the whole list to the selected peer; no state changes |

## Left out

- The tkinter window, styles, labels, dialogs and message boxes. Dialog results and the list selection are method inputs, and the success or error box is `SendFiles`'s outcome.
- Socket creation, bind, listen, accept, connect and broadcast. A connection is its sequence of read results plus a log. Connect success is the `connects` parameter.
- The threads and the unsynchronised sharing of `peers` between the listener and the interface. The registry is modelled single-threaded. `send_files` binds `files_to_send` once, when its loop starts (p2p_file_share.py:93), and the selection handlers rebind rather than mutate it (lines 155, 170), so only a selection made before that point changes what is sent; the model hands the list over when the send starts. The success message re-reads `len(self.files_to_send)` (line 105), so a selection made during a long send changes the count it reports; `SendFiles` reports the count of the list it sent.
- When the peer list is redrawn. The listbox is recomputed only when an announcement is recorded (line 129) or Refresh is pressed (line 150), so a peer that goes silent stays listed until one of those happens. `ActivePeers` is the view as computed at a given time, not what is on screen.
- `get_my_ip` and `gethostbyname`. The own address is a parameter; the finding below is about the two disagreeing.
- `time.time()` returns a float; time is an integer parameter here. `time.sleep` and the endless broadcast loop are not modelled; only the message is.
- `recvfrom(1024)` truncating a datagram, and `data.decode()`. A datagram that is not valid UTF-8 raises inside the listener thread and ends discovery; not modelled, since messages are strings here.
- HandleIncomingFile: the path is the raw bytes of the first read, without `.decode().strip()`. A path that is not valid UTF-8 fails before `"OK"` is sent in the source; the model always answers. The path is assumed to arrive in one read.
- HandleIncomingFile: the save location (`~/Downloads/yamin peer` joined with the received path) and `os.makedirs` are not modelled. Whether the file can be created is the `storeOk` parameter. The received path is not checked for `..` or a leading `/`, so a sender can write outside the download folder; the model does not capture this. A write failure part-way leaves a truncated file; not modelled.
- SendItem: `s.send(path)` is modelled as sending the whole path, though a plain `send` may send only part of it. The path's UTF-8 encoding (`EncodeText`) is modelled, but its decoding is not.
- ClientServerRoundTrip: each write is taken to arrive as exactly one read. A stream socket may merge or split writes, and an empty write puts nothing on the wire: with an empty relative path `s.send(b"")` (p2p_file_share.py:96) sends nothing and both ends wait forever. The program never builds an empty relative path (a base name, line 155, or a folder name joined with a listing entry, line 167), so the lemma requires a non-empty one.
- SendFiles: a connection that breaks mid-file is not modelled. Every peer answers `"OK"`, whose content the sender ignores.
- Selection.Basename, Selection.PathJoin: POSIX rules only; Windows' `\` separator and drive letters are not modelled.
- The labels showing file names and counts after a selection are display only.

## Findings

| source | as written | input that shows it | evidently intended | confidence | as-written member | corrected member |
|---|---|---|---|---|---|---|
| p2p_file_share.py:112-113, 127, 131-140 | the broadcaster announces `gethostbyname(gethostname())`, but the listener filters on `get_my_ip()`, the address of the route to 8.8.8.8 | host name resolving to `127.0.1.1` while the LAN address is `192.168.1.10`: the node's own `"p2p:127.0.1.1"` passes the filter and the node lists itself | a node never lists itself: one address is used both to announce and to filter | medium; not executed | Registry.OwnAnnouncementAcceptedWhenAddressesDiffer | Registry.OwnAnnouncementDropped |

# Employee database server: a verified model

The repository is a small database server in C with its client. Clients connect, announce a protocol version,
and send requests to add, update, delete and list employees; the server polls all its connections in one loop,
keeps the employees in memory, and rewrites its database file after every change. This project models the server,
the client, the wire and file formats, the chained hash map and the text parser, and proves what they do.

Each imperative part has a specification on plain values, and the theorems are about those values:

| file | models | specification it is proved against |
|---|---|---|
| `Bytes.dfy` | widths, byte order, C strings | |
| `Employees.dfy` | employee list, record format | |
| `Parse.dfy` | `strtok`/`strtol` parsing in place, searches of the command line tool | `Tokens`, `Strtol`, `ParseVals` |
| `Grammar.dfy` | which texts the parsers accept, and with which values | grammars of its own |
| `FnvHash.dfy` | `hash_key` | `Hash` |
| `ConnectionMap.dfy` | the chained map with its nodes and in-place rehash | the map `Contents` |
| `Framing.dfy`, `Connection.dfy` | one connection: partial reads, header, handshake, body | `Service`, and the one-pass `Frames` |
| `Requests.dfy`, `OutBuffer.dfy` | request body format, growing buffers | `Encode`, `Records` |
| `Formats.dfy` | every message and the file, byte by byte | numbers by place value, literal characters and message types |
| `FileImage.dfy`, `DbFile.dfy` | the database file | `WriteDb`, `ReadRecords` |
| `Interpreter.dfy`, `Database.dfy` | `deserialize_request_options` | `Interpret`, and the abstract `Meaning` |
| `EventLoop.dfy`, `Runs.dfy`, `Serial.dfy`, `Sweeps.dfy` | the whole server as a state machine over its readiness events, and theorems over all its runs | `Turn`, `After`, `History` |
| `Writes.dfy` | all writes to the file in a run | `AfterWrites` |
| `Client.dfy` | request building, socket loops, response decoding | `Encode`, `TakeOver`, `Decode` |
| `Conversation.dfy` | what is sent to each client in a run, and what the client hears | `Meaning`, one request after another |
| `Plan.dfy`, `Server.dfy` | start-up, poll set, map, connections and database as objects, and the loop around poll and sweep over them | `EventLoop.After`, `Conversation.Logged` |

## How to read the model

* The network and the kernel are inputs. A readiness event brings some bytes (`Incoming`, any number of them for each of
  the up to two reads of a turn), a new descriptor (`Accept`), a failed accept, or nothing. A `recv` takes at most what
  it asks for and what is there; it gives nothing at the end of the stream or when it asks for nothing.
* Accepted descriptors are fresh, because the server never closes one when a client disconnects
  (`executable_src/server/server.c:547-562`).
* Message tags are words in the byte order of the host, taken to be little-endian; lengths, counts and hours are
  big-endian. Other constants are as in the code.
* Buffers, nodes, the poll set and the file are objects that methods change in place. A ghost parameter called `w`
  or `rest` says what has been written so far or what follows.
* The connection map takes the hash function as a parameter; the server passes `Hash`.
* A run records for every turn what was read, what was understood and which answer was given. `Logged` says which bytes
  such a turn sends, `SentTo` puts together those of one descriptor.
* Where the code reads memory that a stream or a file which ends early has not filled, what that memory held before is a
  parameter (`header0`, `data0`, `tag0`, `flag0`, `prior`).
* In `Server.dfy` connections are seen through snapshots (`Shot`) in proofs, and the meanings of a service and of a
  request are passed along as a ghost value (`Meanings`), so that the proofs about memory need not look into them.

## Where the code departs from what it is meant to do

Modelled as meant, with what the code does beside it:

* `connection_map_remove` assigns to a local pointer, or a node's own `next` to itself, so the node stays in its chain
  (`src/models.c:139-161`). `Remove` unlinks it. `RemoveAsWritten` shows that as written neither the map nor any node
  changes, although the node has been freed (`src/models.c:154`, `src/models.c:159`): it is still in the chain of its
  bucket, and the next search of that bucket reads freed memory.
* The list decoder's larger array does not get the old entries (`src/proto.c:378-389`). `DeserializeList` takes a flag:
  with copying the whole list comes out, as written all entries from before the last growth are lost, which is none
  exactly up to 32 employees (`LostNothing`).

Modelled as written:

* `entry_count` is never incremented (`src/models.c:99-108`), so inserting resizes only for a negative load limit.
  `Resize` is proved as a method of its own.
* `write_db` never truncates (`src/serialize.c:234-277`); `FileAfterWrites` says exactly what follows,
  and `DeleteSpoilsRestart` that a server whose database shrinks cannot be started again on its own file.
* After a wrong version the header cursor is not reset (`executable_src/server/server.c:587-590`), so the next read asks
  for nothing and is taken for a disconnect (`WrongVersionIsStuck`).
* Byte counts pass through `int`. A body of 2^31 bytes or more is never complete and ends its connection
  (`OversizedBody`); one of 2^32 - 1 bytes ends the server, as does a `write_db` whose records are 2^32 - 1 bytes long
  modulo 2^32. A response of 2^32 - 1 bytes is sent, but `send_all` then returns -1 (`src/proto.c:28`) and the server
  ends itself (`executable_src/server/server.c:682-686`): of the requests that are carried out these are exactly the ones
  that it does not survive (`CarriedOutEnds`), and there are such (`FatalListing`). With `RoomKept` there are none.
* The list option does not move the cursor past its character (`src/proto.c:536-557`), so when no name is absent the
  cursor ends at the end of the body exactly if nothing was to be listed (`CursorAtEnd`).
* With exactly two fields `parse_employee_vals` reads through a null pointer (`src/parse.c:17`): its method requires
  that this is not the case. With none or one it reports a bad argument.
* The client does not notice a stream that ends early, since `receive_all` then answers 0, which is not its error code
  (`src/proto.c:31-51`). It goes on with what its buffers held; `TakeOver` says what comes of it.
* With error flag 1 the length field of a response is not written (`src/proto.c:477-482`), so only five of its nine
  bytes are known.

## Model

| member | source | states |
|---|---|---|
| Bytes.Be16Places | src/proto.c:114-115 | a 16-bit number is stored with its high byte first |
| Bytes.Be32Places | src/proto.c:131-133 | so is a 32-bit number |
| Bytes.HostWordPlaces | executable_src/server/server.c:448 | a message type is stored with its low byte first |
| Bytes.FromBe32Places | executable_src/client/client.c:419 | a 32-bit number is read with its high byte first |
| Bytes.FromHostWordPlaces | executable_src/client/client.c:404 | a message type is read with its low byte first |
| Bytes.ConversionsCongruent | executable_src/server/server.c:386-441 | the conversions between `int` and the unsigned types keep the value modulo their width |
| FnvHash.HashKey | src/models.c:31-40 | the loop over the four bytes of a key computes the specified 64-bit FNV-1a hash |
| FnvHash.Xor8At | src/models.c:36 | a bit of the exclusive or of two bytes is 1 exactly if their bits differ |
| FnvHash.XorByteAt | src/models.c:36 | so it is for a byte and all 64 bits of the hash |
| FnvHash.KeyBytesPlaces | src/models.c:34-36 | the four bytes that go into the hash are those of the key in two's complement, the lowest first |
| FnvHash.KnownHash | include/models.h:36-37 | the hash of the one byte `a` is the published one, which fixes start value and prime |
| FnvHash.HashInjective | src/models.c:31-40 | two `int` keys with the same hash are the same key |
| FnvHash.FourRoundsInjective | src/models.c:34-38 | four rounds from the offset basis separate any two four-byte strings |
| FnvHash.NoCancellation | src/models.c:36-37 | differences of three xors cancel after the multiplications only if all of them are zero |
| ConnectionMap.ConnectionMap.constructor | src/models.c:42-51 | 101 empty buckets and the given load limit hold the empty map, without a node |
| ConnectionMap.ConnectionMap.Insert | src/models.c:81-109 | updates the map, with one more node for a new key and none for an old one; the table grows exactly for a new key and a negative load limit |
| ConnectionMap.ConnectionMap.InsertNew | src/models.c:99-104 | a node at the head of its bucket adds one key and loses none: the nodes in the chains are the old ones and the new one |
| ConnectionMap.ConnectionMap.Overwrite | src/models.c:87-97 | an old key gets its new connection in the node it has |
| ConnectionMap.ConnectionMap.Contains | src/models.c:111-122 | true exactly for the keys of the map |
| ConnectionMap.ConnectionMap.Get | src/models.c:125-136 | the connection the map has for a key, or null |
| ConnectionMap.ConnectionMap.Remove | src/models.c:139-161 | as meant: exactly the key goes from the map, and exactly its node from the chains |
| ConnectionMap.ConnectionMap.RemoveAsWritten | src/models.c:139-161 | as written: neither the map nor any node changes, and the node that is freed, which there is exactly for a key of the map, stays in the chain of its bucket |
| ConnectionMap.ConnectionMap.Resize | src/models.c:53-78 | rehashing in place into twice as many buckets keeps the map; a node is in the new chain of its key exactly if it was in the old one, so none is lost, duplicated or added |
| ConnectionMap.ConnectionMap.NodesAreLinked | src/models.c:81-161 | in every valid map the nodes accounted for are exactly those in the chains, each in the chain of its own key |
| ConnectionMap.MovedAll | src/models.c:53-78 | when the last bucket is done, every old node is in a new chain and every key is found |
| ConnectionMap.ConnectionMap.MoveChain | src/models.c:60-72 | the inner loop moves every node of a chain, and no other one, although it overwrites their `next` on the way |
| ConnectionMap.RehashStep | src/models.c:65-70 | moving one node keeps old chains, new chains and the account of which nodes have been moved |
| ConnectionMap.ChainedUnlink | src/models.c:151-160 | taking a node out of a chain leaves a chain of the others |
| ConnectionMap.BucketsAfter | src/models.c:81-161 | a change in one bucket leaves the order of all others |
| ConnectionMap.BucketIsRemainder | src/models.c:83-84 | the bucket of a hash is its remainder by the number of buckets |
| Employees.FirstNamed | src/proto.c:464-473 | the search finds the first employee of that name, or none |
| Employees.SetHoursAt | src/proto.c:464-473 | exactly the employee at the index gets the hours and keeps name and address; nobody else changes |
| Employees.SwapRemoveAt | src/proto.c:507-516 | the last employee stands where the deleted one was, and everybody else where they were |
| Employees.SwapRemoveTakesOne | src/proto.c:507-516 | deletion by moving the last employee into the gap takes away exactly that employee |
| Employees.FieldRoundTrip | src/serialize.c:102-145 | a string field reads back exactly if the string is at most 65534 bytes long; at 65535 and more it does not |
| Employees.RecordRoundTrip | src/serialize.c:102-219 | so does a record, whatever follows it |
| Employees.RecordsRoundTrip | src/serialize.c:281-306 | so does a list of records of known length |
| Employees.AllRecordsRoundTrip | src/proto.c:294-408 | decoding a list response to its end gives exactly the listed employees in order, or fails if a string is too long |
| Employees.SizeAfterSwapRemove | src/proto.c:507-516 | deletion shrinks the encoded list by exactly the deleted record |
| Parse.Strtok | src/parse.c:13-15 | cuts the next field out in place and says where the next call goes on; the fields are those of `Tokens` |
| Parse.ParseEmployeeVals | src/parse.c:11-32 | succeeds exactly on a name, an address and a whole number of hours, and leaves the two strings in the argument |
| Parse.EmployeeTextRoundTrip | src/parse.c:11-32 | any text `name,address,hours`, with any number of leading or repeated commas and anything after a further comma, parses to those values |
| Parse.HoursTextRoundTrip | src/parse.c:69-80 | the decimal notation of any 32-bit number parses to it |
| Grammar.HoursExactly | src/parse.c:69-80 | a text is taken for hours exactly if it is white space, a sign or none, and at least one digit, to its end; the value is the signed decimal number, clamped to `long`, modulo 2^32 |
| Grammar.EmployeeExactly | src/parse.c:11-32 | an employee is read exactly from a text whose first three fields, with commas before them, are its name, its address and hours |
| Grammar.NullReadExactly | src/parse.c:13-17 | the code reads through a null pointer on exactly the texts of two fields |
| Grammar.AcceptableExactly | executable_src/client/client.c:125-168 | the client builds a request exactly from arguments of that form whose strings fit |
| Grammar.AskedFor | executable_src/client/client.c:125-168 | and asks for exactly what they say |
| Parse.UpdateEmployee | src/parse.c:85-113 | the first employee of that name has the hours afterwards, and nothing else changes; or it fails, exactly for bad hours or an absent name, and changes nothing |
| Parse.DeleteEmployee | src/parse.c:115-131 | moves the last employee into the place of the first one of that name, or fails and changes nothing |
| Framing.ServiceAgrees | executable_src/server/server.c:229-254 | one turn for a connection in any state and with any chunks understands the next part of the one-pass description and keeps the state valid |
| Framing.FragmentationIndependence | executable_src/server/server.c:386-441 | every way of cutting a stream into reads gives the frames of the one-pass description, and all of them once it is drained |
| Framing.CutsDoNotMatter | executable_src/server/server.c:386-441 | two cuttings of one stream cannot be told apart |
| Framing.ServiceEnds | executable_src/server/server.c:219-228 | a connection that ends leaves nothing unsaid |
| Framing.HeaderAgrees | executable_src/server/server.c:610-664 | a complete header with the read made inside its handler: rejected type, empty request or body |
| Framing.GreetAgrees | executable_src/server/server.c:564-608 | a complete handshake: wrong type, wrong version or welcome |
| Framing.OversizedBody | executable_src/server/server.c:414-440 | a body of 2^31 bytes or more fills up without being complete and then ends the connection |
| Framing.RequestsFollowHandshake | executable_src/server/server.c:564-608 | in a stream, a request comes only after a handshake with the server's version |
| Framing.NoSecondHandshake | executable_src/server/server.c:229-244 | past the greeting nothing is taken for a handshake |
| Framing.WrongVersionIsLast | executable_src/server/server.c:587-590 | after a wrong version there is only the end, and before it no welcome |
| Framing.ConversationUnderstood | executable_src/client/client.c:283-297 | the server understands exactly the handshake and the requests that a client of its version sends |
| Framing.ManyRequests | executable_src/client/client.c:170-180 | any number of requests in a row are understood one by one |
| Connection.RecvInto | executable_src/server/server.c:386-441 | a read puts its bytes behind the cursor, inside the buffer |
| Connection.ClientConnection.constructor | src/models.c:12-21 | a new connection waits for a handshake |
| Connection.ClientConnection.Receive | executable_src/server/server.c:386-441 | reads into the header or the body at the saved cursor, never past the buffer, and returns the total as an `int` |
| Connection.ClientConnection.Greet | executable_src/server/server.c:564-608 | new state and reply to a complete handshake |
| Connection.ClientConnection.ReadHeader | executable_src/server/server.c:610-664 | new state, reply and bytes read for a complete header |
| Connection.ClientConnection.Serve | executable_src/server/server.c:212-254 | the whole turn of a connection is `Service`, and the replies are those for its frames |
| Connection.ClientConnection.ResetForNextRequest | executable_src/server/server.c:687-694 | the connection waits for the next header and has no body |
| Requests.TextRoundTrip | src/proto.c:138-166 | a length and that many NUL-free characters, up to 65535, read back |
| Requests.AddRoundTrip | src/proto.c:73-166 | an add option reads back as its employee, whatever follows |
| Requests.UpdateRoundTrip | src/proto.c:170-231 | an update option reads back as its name and hours |
| Requests.DeleteRoundTrip | src/proto.c:234-278 | a delete option reads back as its name |
| Formats.HandshakeFormat | executable_src/client/client.c:283-297 | handshake: type 0 in four bytes, low byte first, and the version, high byte first |
| Formats.RequestFormat | executable_src/client/client.c:118-177 | request: type 2, the length of the body, the body |
| Formats.AddFormat | src/proto.c:109-133 | add option: the character `a`, length and characters of name and address, hours |
| Formats.UpdateFormat | src/proto.c:170-212 | update option: the character `u`, length and characters of the name, hours |
| Formats.DeleteFormat | src/proto.c:234-263 | delete option: the character `d`, length and characters of the name |
| Formats.BodyFormat | executable_src/client/client.c:125-168 | a body is its add, update and delete options in this order, and then the character `l` if asked for |
| Formats.HandshakeReplyFormat | executable_src/server/server.c:564-608 | handshake response: type 1 and a flag, which is 0 exactly for a client of the server's version and 1 for any other |
| Formats.HandshakeAccepted | executable_src/client/client.c:355-387 | the client takes the server's response for a success exactly if their versions are the same |
| Formats.RefusalFormat | executable_src/server/server.c:464-478 | the refusal of a wrong message is type 4 and nothing else |
| Formats.RefusalUnderstood | executable_src/client/client.c:403-408 | the client reads it as that, instead of a response and instead of a handshake response |
| Formats.ResponseFormat | src/proto.c:536-563 | response: type 3, flag 1 for an absent name; or flag 0, the length of the data, and the data |
| Formats.EmptyReplyFormat | executable_src/server/server.c:481-497 | the answer to an empty request: type 3, flag 0, length 0 |
| Formats.GreetingRead | executable_src/server/server.c:564-608 | six bytes of greeting are refused, end the conversation or are a welcome by type and version at these places |
| Formats.HeaderRead | executable_src/server/server.c:610-664 | an eight-byte header is refused, empty or announces a body by type and length at these places |
| Formats.BodyRead | executable_src/server/server.c:414-441 | a body is complete with its last byte, but one beyond 2^31 - 1 bytes ends the connection and one of 2^32 - 1 the server |
| Formats.ResponseRead | executable_src/client/client.c:389-425 | the client decides by type, flag and length at these places |
| Formats.RecordFormat | src/serialize.c:102-159 | a record is name, address and hours; the length of a string counts its NUL, modulo 2^16 |
| Formats.RecordsFormat | src/proto.c:294-335 | the records of a list stand one behind the other in its order |
| Formats.ImageFormat | src/serialize.c:234-277 | the file: its size modulo 2^32, the number of employees, the records |
| Formats.FileRead | src/serialize.c:297-334 | the header check compares the first number with the size of the file; the second says how many records are read |
| OutBuffer.OutBuffer.Resize | src/proto.c:53-71 | room for what is asked and no more, and what is written stays |
| OutBuffer.OutBuffer.SerializeAddText | src/proto.c:73-136 | parses the argument and appends exactly its encoding, or fails; an exact buffer stays exact |
| OutBuffer.OutBuffer.SerializeAdd | src/proto.c:82-135 | appends exactly the add option, or refuses a string of more than 65535 bytes |
| OutBuffer.OutBuffer.SerializeUpdate | src/proto.c:170-212 | appends exactly the update option, or refuses |
| OutBuffer.OutBuffer.SerializeDelete | src/proto.c:234-263 | appends exactly the delete option, or refuses |
| OutBuffer.OutBuffer.SerializeListOption | src/proto.c:281-291 | appends exactly the list option |
| OutBuffer.OutBuffer.SerializeList | src/proto.c:294-335 | appends exactly the records of all employees, so the capacity is the length of the response |
| FileImage.OverwriteParts | src/serialize.c:16-30 | a write replaces exactly its range and extends a file that ends before it |
| FileImage.WriteDbLeavesTail | src/serialize.c:234-277 | after `write_db` the file is the image followed by what stuck out behind it |
| FileImage.CountThroughInt | src/serialize.c:240-254 | the byte count survives `int` and `size_t` modulo 2^32, and is -1 for exactly one residue |
| FileImage.LengthAfterWrites | src/serialize.c:234-277 | after any run of writes the length is the largest of the first length and all sizes written |
| FileImage.FileAfterWrites | src/serialize.c:234-334 | the header check then passes exactly if the last image was the largest, and the records read back in any case |
| FileImage.ImageReadsBack | src/serialize.c:297-334 | an image reads back whatever stale bytes follow |
| FileImage.SmallerImage | src/serialize.c:234-334 | writing a smaller image over an accepted file leaves one that is not accepted |
| DbFile.DbFile.WriteAll | src/serialize.c:16-30 | the loop over partial writes writes exactly the bytes |
| DbFile.DbFile.SerializeEmployee | src/serialize.c:102-159 | writes exactly one record and counts its bytes |
| DbFile.DbFile.WriteEmployees | src/serialize.c:281-295 | writes exactly the records of all employees |
| DbFile.DbFile.WriteDb | src/serialize.c:234-277 | the new file, whether that counts as success, and the size for the header |
| DbFile.DbFile.WriteNewFileHdr | src/serialize.c:221-232 | a new file is the image of no employees |
| DbFile.DbFile.DeserializeEmployee | src/serialize.c:162-219 | reads one record, and fails only where there is none |
| DbFile.DbFile.ReadEmployees | src/serialize.c:297-306 | reads the counted records in order |
| DbFile.DbFile.ReadDbHdr | src/serialize.c:308-334 | size and count, and success exactly if the size is that of the file; of a file shorter than the header it reads what there is |
| Interpreter.AddMeans | src/proto.c:416-448 | an added employee stands at the end, and nobody else changes |
| Interpreter.UpdateMeans | src/proto.c:450-491 | the first employee of that name has the requested hours afterwards and nobody else changes; with an absent name nothing does and the answer says so |
| Interpreter.DeleteMeans | src/proto.c:493-534 | the last employee takes the place of the first one of that name and nobody else moves; with an absent name nothing changes and the answer says so |
| Interpreter.MeaningInSteps | src/proto.c:411-564 | several options mean what single ones mean one after another, in the order add, update, delete, up to the first absent name; a list comes last |
| Interpreter.RequestMeaning | src/proto.c:411-564 | interpreting the bytes of a request has the effect of its options in order, stops at the first absent name and keeps what was done before |
| Interpreter.CursorAtEnd | src/proto.c:411-564 | with no absent name the cursor ends at the end of the body exactly if nothing is to be listed |
| Interpreter.RequestSucceeds | src/proto.c:411-564 | with room in 32 bits a well-formed request is always carried out |
| Interpreter.FatalLength | executable_src/server/server.c:681-686 | the server does not go on after a request that was carried out exactly if the response is 2^32 - 1 bytes long |
| Interpreter.FatalListing | executable_src/server/server.c:681-686 | there are well-formed employees whose list response has that length |
| Interpreter.RequestSurvived | executable_src/server/server.c:666-695 | with room for a response of less than that, a well-formed request is carried out and survived |
| Interpreter.InterpretKeepsDisk | src/proto.c:411-564 | after every successful return, early ones included, the file starts with the image of what is in memory |
| Interpreter.DiskReadsBack | src/serialize.c:297-334 | then the header on disk is the one in memory and the employees read back exactly if every string fits |
| Interpreter.MeaningKeepsValid | src/proto.c:411-564 | requests whose strings have no NUL leave a database whose strings have none |
| Interpreter.ReopenFinds | executable_src/server/server.c:129-140 | a restart on the file finds exactly what was in memory, if and only if every string fits and nothing sticks out behind the image |
| Interpreter.NewFileReopens | executable_src/server/server.c:107-140 | the server can be started on a file it has just created, with no employees |
| Interpreter.DeleteSpoilsRestart | src/serialize.c:234-334 | after deleting any employee from an accepted file, the header check fails on the result |
| Database.Find | src/proto.c:464-473 | the search loop finds the first employee of that name |
| Database.TakeAddAt | src/proto.c:138-166 | decodes an add option at the cursor and moves behind it |
| Database.TakeUpdateAt | src/proto.c:215-231 | decodes an update option at the cursor and moves behind it |
| Database.TakeTextAt | src/proto.c:266-278 | decodes a length and its characters at the cursor |
| Database.Database.Append | src/proto.c:422-433 | one more employee, in an array of exactly that size |
| Database.Database.RemoveAt | src/proto.c:507-516 | the last employee moves into the gap and the count goes down |
| Database.Database.DeserializeRequestOptions | src/proto.c:411-564 | employees, file, response and cursor are those of `Interpret`, and it fails exactly when that does |
| Database.Open | executable_src/server/server.c:129-140 | reading header and employees succeeds with exactly the store that the file holds, and fails on a file with a wrong size |
| EventLoop.StepInv | executable_src/server/server.c:186-257 | every step keeps: index 0 is the listener, map and poll set name the same clients with their own indices, and every connection is in a valid state |
| EventLoop.After | executable_src/server/server.c:176-257 | so it holds in every reachable state |
| EventLoop.DropClientInv | executable_src/server/server.c:547-562 | a disconnect keeps it and removes exactly one client, although the last entry moves |
| EventLoop.ServedClient | executable_src/server/server.c:198-255 | a served client goes on in the state of its service, or leaves exactly if that ended its connection |
| EventLoop.SettledStatus | executable_src/server/server.c:212-254 | exactly when a served client ends the server |
| EventLoop.UnservedClient | executable_src/server/server.c:186-257 | every other client keeps its state |
| Runs.ClientHistory | executable_src/server/server.c:186-257 | in every run, what is understood of each client is the one-pass description of its bytes, whatever the interleaving |
| Runs.NothingInvented | executable_src/server/server.c:186-257 | even in a run that ended the server nothing is understood that the bytes do not say |
| Runs.PastGreeting | executable_src/server/server.c:564-608 | a client is past the greeting exactly if its history has a handshake with the server's version |
| Runs.HandshakeBeforeRequest | executable_src/server/server.c:246-254 | a body that reaches the interpreter comes from a client with such a handshake in its history |
| Runs.WrongVersionIsStuck | executable_src/server/server.c:587-590 | a client that announced another version is not initialized and nothing but the end is ever understood of it |
| Serial.Serialisable | executable_src/server/server.c:186-257 | for any number of clients and any interleaving the store is the completed bodies interpreted one after another; unfinished ones have no effect |
| Serial.MeaningOfRun | executable_src/server/server.c:666-695 | the employees are the meanings of the completed requests, one after another in the order of completion |
| Serial.AnswersOfRun | executable_src/server/server.c:666-695 | the answers given in a run, in the order in which they are given, are those of the completed requests carried out one after another |
| Serial.DiskOfRun | src/serialize.c:234-334 | at any time the file holds the employees in memory, readable exactly if every string fits, accepted exactly if nothing sticks out, and a restart finds the store of the run exactly if both hold |
| Serial.ClientOrder | executable_src/server/server.c:610-695 | the completed requests of a client, empty ones included, are the first ones it sent, in its order, even if the server has ended itself |
| Serial.AllUnderstood | executable_src/server/server.c:186-257 | while the server is running, what it has understood of any client is all that its bytes say |
| Serial.AllCompleted | executable_src/server/server.c:186-257 | while the server is running, the completed requests of any client are exactly those that the one-pass description finds in its bytes: none is forgotten or held back |
| Serial.ArrivedUnderstood | executable_src/client/client.c:170-180 | of the beginning of a conversation, cut anywhere, exactly the requests that are there to their last byte are understood |
| Serial.CompletedExactly | executable_src/server/server.c:610-695 | while the server is running, the completed requests of a client that follows the protocol are exactly those that have arrived to their last byte; when all its bytes are in, all of them |
| Serial.ProtocolRun | executable_src/server/server.c:186-257 | if all clients follow the protocol, employees and answers at any time while the server runs are those of requests of theirs, carried out one after another; which client gets which answer is `Conversation.EveryClientSatisfied` |
| Serial.NothingTakenBack | executable_src/server/server.c:386-441 | more bytes only add to the requests understood |
| Serial.BodiesOfFrames | executable_src/server/server.c:246-254 | the bodies completed for a client are those among its frames |
| Conversation.ClientHears | executable_src/server/server.c:444-497 | in every run, and whatever the others do, a client that follows the protocol reads the welcome and then exactly the responses to its own requests, in its order; before its handshake is complete it reads nothing |
| Conversation.HearOneMore | executable_src/client/client.c:389-456 | a client that reads one response after another finds one more at the end when one more is sent, and the earlier ones as before |
| Conversation.RepliesHeard | executable_src/server/server.c:229-244 | a client whose bytes contain no request, whatever they are, hears exactly the replies to what they say |
| Conversation.OtherVersionHears | executable_src/server/server.c:587-601 | a client that announced another version hears the bytes 1, 0, 0, 0, 1 once its handshake is complete, and never anything else |
| Conversation.OtherTypeHears | executable_src/server/server.c:570-583 | a client that begins with another type hears the bytes 4, 0, 0, 0 |
| Conversation.MeantDecodes | executable_src/client/client.c:389-456 | every response in a run decodes to what should be shown of the meaning of its request, exactly if nothing is listed or all listed strings fit |
| Conversation.DecodedShare | executable_src/client/client.c:389-456 | a client that decodes the responses sent to it understands its share of the answers |
| Conversation.ClientSatisfied | executable_src/server/server.c:186-257 | among all completed requests carried out one after another, a client's own are exactly those that have arrived; what it has heard is what they mean where they stand, and it decodes that to what should be shown |
| Conversation.OwnBodies | executable_src/server/server.c:666-695 | the completed bodies that belong to a client are the ones that its own bytes completed |
| Conversation.RunAnswersAll | executable_src/server/server.c:610-695 | while the server runs, exactly the turns that complete a request give an answer |
| Conversation.OwnAnswers | executable_src/server/server.c:666-695 | then the answers that go to a client are those, among all answers, that stand where its own requests stand |
| Conversation.CarriedOutEnds | executable_src/server/server.c:246-254 | a turn that carries out a request ends the server if and only if the response is 2^32 - 1 bytes long; the response is sent and the request takes effect in either case |
| Conversation.KeepsRunning | executable_src/server/server.c:186-257 | as long as all clients follow the protocol and a response that lists all employees would be shorter than 2^32 - 1 bytes, the server never ends itself |
| Conversation.ShortRunHasRoom | src/proto.c:422-433 | there is room in every run that is short enough for the largest possible records |
| Conversation.EveryClientSatisfied | executable_src/server/server.c:186-257 | if all clients follow the protocol and there is room: the server is running, one order of all completed requests explains its employees, every request that has arrived is among them, and every client has heard and can decode exactly the meanings of its own requests in that order |
| Writes.InterpretLeads | src/proto.c:411-564 | whatever a body says, the file afterwards is what its writes make of it, and the last one is of what is in memory |
| Writes.RequestWrites | src/proto.c:411-564 | a request writes the employees after its add, after its update and after its delete, as far as it gets, and nothing else |
| Writes.FileOfRun | src/serialize.c:234-334 | in every run the file is what the writes of the completed requests make of the one the server was started on; a restart passes the header check exactly if the last image is the largest there has been |
| Writes.WritesOfRun | src/serialize.c:234-277 | when the completed bodies are requests, these writes are those that the requests mean one after another |
| Sweeps.ServedOnce | executable_src/server/server.c:186-257 | between two polls no client is served twice, although entries move and clients join |
| Sweeps.SweepInv | executable_src/server/server.c:364-383 | whoever was served is behind the sweep or gone |
| Sweeps.SweepAdvances | executable_src/server/server.c:186-257 | every turn brings the end of the sweep nearer; over n entries there are at most n + 1 |
| ServerLoop.PollFds.Add | executable_src/server/server.c:345-362 | appends a descriptor, doubling the array exactly when it is full |
| ServerLoop.RemoveFd | executable_src/server/server.c:364-383 | the last entry takes the freed index and its connection learns it |
| ServerLoop.AcceptNewClient | executable_src/server/server.c:499-545 | a new entry and a new connection that knows its index; nothing else changes |
| ServerLoop.HandleClientDisconnect | executable_src/server/server.c:547-562 | poll set, map and all connections after a disconnect |
| ServerLoop.HandleDbAccessRequest | executable_src/server/server.c:666-695 | database and reply are those of the interpreter, and the connection waits for the next header; it fails without a reply if the interpreter does, and after the whole reply exactly if that is 2^32 - 1 bytes long |
| ServerLoop.DbServer.constructor | executable_src/server/server.c:160-173 | the first state of the event loop, in new memory |
| ServerLoop.DbServer.VisitClient | executable_src/server/server.c:198-255 | one turn for a ready client changes poll set, map, connections, employees and file as the event loop says, and sends the right replies |
| ServerLoop.DbServer.VisitListener | executable_src/server/server.c:191-199 | the turn at the listener accepts as the event loop says |
| ServerLoop.DbServer.VisitReady | executable_src/server/server.c:198-255 | the same with all memory accounted for: nothing outside the server is touched |
| ServerLoop.DbServer.Visit | executable_src/server/server.c:186-257 | the body of the sweep loop at any index and for any input: the next state, and the bytes sent |
| ServerLoop.DbServer.Sweep | executable_src/server/server.c:186-257 | the sweep loop goes through the states of the event loop and sends what they say, turn by turn; unless the input ends before, it is past the end of the poll set after at most one turn more than there were entries |
| ServerLoop.DbServer.Follow | executable_src/server/server.c:176-258 | so does the loop around poll and sweep, to the end of the input |
| ServerLoop.DbServer.Run | executable_src/server/server.c:176-258 | on any inputs the objects are in the states of `EventLoop.After`, to the end or until the server ends itself, and the bytes sent are those of the history of that run |
| ServerLoop.Start | executable_src/server/server.c:128-173 | started on a file, the server is in the first state of the event loop with the store that the file holds; it refuses a file with a wrong size |
| ServerLoop.Serve | executable_src/server/server.c:128-258 | from the file through start-up and all turns: the bytes sent are those of the run, and unless the server has ended itself, so are the employees and the header that it holds and its file; if the clients follow the protocol and there is room, it has not, and has satisfied every client |
| Plan.TurnIsPlanned | executable_src/server/server.c:186-257 | a turn of the event loop is a turn of the plan that the objects follow, and the invariant allows every look-up it makes |
| Plan.RunIsPlan | executable_src/server/server.c:176-258 | the states of any run of the event loop, polls included, are such a plan |
| Plan.PlannedIsSent | executable_src/server/server.c:444-497 | what a turn of the plan sends is what the event of that turn stands for |
| Plan.SentIsLogged | executable_src/server/server.c:176-258 | so the bytes of a whole run are those of its history |
| Plan.ProtocolDefined | executable_src/server/server.c:186-257 | clients that follow the protocol, with room and fresh descriptors, bring about no read past a body |
| ServerLoop.OneChanged | executable_src/server/server.c:386-441 | changing one connection changes no other one, and they stay apart in memory |
| Client.Socket.SendAll | src/proto.c:14-29 | the loop over partial sends sends exactly the bytes, and returns their number as an `int`, which is -1 exactly for 2^32 - 1 bytes modulo 2^32 |
| Client.Socket.ReceiveAll | src/proto.c:31-51 | the loop over partial reads fills the buffer with the next bytes of the stream, as far as it goes, and returns their number as an `int`, or 0 if the stream ends before the buffer is full |
| Client.SendHandshake | executable_src/client/client.c:283-297 | sends the six bytes of a handshake |
| Client.ReceiveHandshake | executable_src/client/client.c:355-387 | from any stream: succeeds exactly on a handshake response with flag 0; takes five bytes, or four of a message of another type |
| Client.HandshakeReplyUnderstood | executable_src/server/server.c:444-461 | the five bytes of the server's reply are what the client expects, flag included, and no more are taken |
| Client.RefusalIsNoHandshake | executable_src/server/server.c:464-478 | the server's refusal of a wrong message is never taken for a handshake response |
| Client.BuildRequest | executable_src/client/client.c:119-177 | builds exactly the message for the encoded options, and refuses exactly what cannot be parsed or does not fit |
| Client.RequestedIsValid | executable_src/client/client.c:125-168 | what can be asked for on the command line can be encoded |
| Client.DeserializeList | src/proto.c:337-408 | all employees in order as meant, and exactly which are lost as written |
| Client.LostNothing | src/proto.c:378-389 | as written nothing is lost exactly up to 32 employees |
| Client.ReceiveResponse | executable_src/client/client.c:389-425 | from any stream: what is received, byte for byte, and what is left, before and apart from any decoding |
| Client.TakenFromStream | executable_src/client/client.c:389-425 | unless the stream ends inside a response, what is received depends on the stream alone |
| Client.ShortRefusal | executable_src/server/server.c:464-478 | the four bytes of a refusal are understood even if nothing follows them |
| Client.DeserializeResponse | executable_src/client/client.c:389-456 | receiving, decoding and collecting give the records in the data that was received, or the error; what is taken off the stream does not depend on the decoding |
| Client.ResponseTaken | executable_src/client/client.c:389-425 | of every response, with either flag and whatever it lists, the client takes exactly its bytes off the stream |
| Client.EmptyReplyIsResponse | executable_src/server/server.c:483-497 | the answer to an empty request is a response like any other |
| Client.RequestFramed | src/proto.c:411-564 | after any request that was carried out, on any database, both ends are at a message boundary |
| Client.MeaningDecoded | src/proto.c:294-408 | the client decodes the meaning of a request to what should be shown, exactly if nothing is listed or all listed strings fit |
| Client.RequestAnswered | src/proto.c:411-564 | the client makes of the bytes sent back exactly what its request means on the employees there were; only a listing needs strings that fit |

## Left out

- Sockets, `poll`, `accept`, name lookup and file descriptors: foreign calls, replaced by inputs as described above.
- Command line handling, messages and exit codes of the three programs, and the parsing of the protocol version.
- The command line tool as a program; its searches are `Parse.UpdateEmployee` and `Parse.DeleteEmployee`.
- `serialize_employee` and `deserialize_employee` (`src/serialize.c:32-99`): used by tests only.
- Failing allocations, reads, writes and sends, `free`, alignment, and `errno`; a read or write that succeeds moves at least one byte. In the code a failing `recv` or `send` ends the server (`executable_src/server/server.c:213-217`, `executable_src/server/server.c:682-686`), whatever the clients do.
- Conversation.KeepsRunning: so it speaks of runs in which no call to the kernel fails, except that `accept` may.
- Request bodies that are not encodings are interpreted up to the first read past their end, which the model calls `Crashed`; so is a list response of 4 GiB or more, and an employee count of 2^32.
- After the server has ended itself its state and its file are not described.
- ConnectionMap.ConnectionMap.RemoveAsWritten: the freed node keeps its contents in the model; what later calls read from freed memory is undefined. The server of the model calls `Remove`, so its descriptors and connections are those of a map that unlinks.
- DbFile.DbFile.DeserializeEmployee: a string without a NUL in its field is left open, because the C string then runs past its buffer.
- DbFile.DbFile.ReadEmployees: the same, for every record.
- DbFile.DbFile.WriteDb: the header is one write, as in the code, and a partial one is not modelled.
- Database.Open: leaves open what comes of a file whose size is right but whose records hold such a string or end early, or that is shorter than its header.
- ServerLoop.Start: the same; a server on a new file starts from `DbFile.DbFile.WriteNewFileHdr`.
- ServerLoop.DbServer.Run: stops at the end of its inputs, anywhere in a sweep; the loop in the code has no end.
- Client.DeserializeList: says nothing about data that is no list of records, because the code then reads past its buffers.
- Client.DeserializeResponse: the same, for the data of a response.
- Database.Database.DeserializeRequestOptions: requires that the interpretation does not read past the body, because the code does not check it.
- ServerLoop.DbServer.VisitClient: the same requirement.
- ServerLoop.DbServer.VisitReady: the same requirement.
- ServerLoop.DbServer.Sweep: the same requirement, for every turn.

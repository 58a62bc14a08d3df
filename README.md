# zed, modelled in Dafny

zed is a small networked zombie shooter. This project models three parts of it.

- **The world of `game.cpp`.**
  - The zed slots and their spatial index: every cell of the 32x32 city grid keeps an intrusive doubly-linked list of the zeds standing in it. The heads are in `cols[]`; the links are in `cnext`/`cprev`.
  - The generation of the city in `init`: the building, doorway, cache and zed passes.
  - The clamp and wall/doorway test of `collideCharacter`.
  - The integer rules of `updateFrame`: picking up packs, firing, bullets killing zeds, the zed state switch, and an attacking zed's damage with its respawn.
- **The server's session table (`server.cpp`).**
  - Eight client slots (free, connecting, active) keyed by address.
  - The request handler, the 5000 ms timeout and the 50 ms broadcast.
  - The byte layouts of WORLD, CLIENTINFO and PLAYERUPDATE.
- **The client's side (`client.cpp`).**
  - The four-part map download and the activation handshake.
  - The reply decoder and the 6-byte UPDATE.

## Structure

| file | contents |
|---|---|
| `bytes.dfy` | `byte`/`u16` and the big-endian words of SDLNet_Write16/Read16 |
| `wrappers.dfy` | `Option` |
| `protocol.dfy` | the datagram layouts, as encoders and decoders, and their round trips |
| `server.dfy` | `ServerState` (the `clients[]` table and its socket) |
| `client.dfy` | `ClientState` (`downloadedMapPart`, `connectstatus`, the map buffer) |
| `zedindex.dfy` | the cell lists over snapshots of `zed[]`/`cols[]` |
| `gamemap.dfy` | map bits, generation invariants, the clamp and the wall faces |
| `worldgen.dfy` | what init's passes leave behind, over snapshots |
| `game.dfy` | `World`: the arrays, health, ammo and fire delay, and the methods that change them in place |

### How the model is shaped

- **Imperative code stays imperative.** Each source file keeps its imperative form: classes own the arrays the source mutates. Each method either states its new state outright or ties it to a pure specification function, and lemmas state the properties of those functions. The receive loops are specified by folds: `Receipt` and `Drain` on the server, `ApplyReply` and `Replies` on the client. The passes of `init` are specified by folds over the cells in scan order as well: `Buildings` for the three building sweeps, `Doorways` for the doorway pass (both rolls), `PackAt` for the cache pass, and `SpawnRank`, the number of spawn spots before a cell, for the slot each zed takes.
- **The spatial index.** Its soundness is `IndexOk`: each cell's list enumerates exactly the zeds on it, the links are mutually inverse, and each head has `cprev == -1`. This is stated over a ghost `lists` field of `World`. `LinkedAreMoving` adds that the linked zeds are exactly the wandering and attacking ones. Packs carry a cell but are never linked.
- **Float geometry and randomness are inputs.** The source computes both.
  - Each frame's distance tests, `collideCharacter`'s "moved" result and the cell a moved zed lands in arrive as a `Sighting`.
  - `init`'s random draws come from oracle functions keyed by the cell the pass is visiting.
- **The socket, clock and game calls are recorded, not performed.** The socket is the `sent` sequence, the clock is a `now` argument, and calls into the game are recorded in `calls`.

## Model

| member | source | states |
|---|---|---|
| Bytes.Write16 | server.cpp:96-97 | two bytes, most significant first, that SDLNet_Read16 reads back as the same word |
| Bytes.Write16Read16 | client.cpp:149-150 | every pair of bytes is the encoding of the word read from it, so decoding then encoding is the identity |
| Bytes.WordsAt | server.cpp:96-97 | word j of a run of words sits at offsets 2j and 2j+1 |
| Bytes.ReadWordsWords | client.cpp:149-150 | reading back the big-endian encoding of a list of words gives that list |
| Bytes.WordsSnoc | server.cpp:96-97 | writing one more word extends the encoding by exactly its two bytes |
| Bytes.ReadWordsSnoc | client.cpp:149-150 | reading two more bytes extends the decoded words by exactly one |
| Protocol.UpdatePacket | client.cpp:29-33 | UPDATE is 6 bytes: opcode, keys, then aimr and aimp readable big-endian at offsets 2 and 4 |
| Protocol.GetWorldPacket | client.cpp:57-59 | a GETWORLD request is 2 bytes: opcode and part number |
| Protocol.GetClientInfoPacket | client.cpp:66-67 | a GETCLIENTINFO request is the bare opcode |
| Protocol.DecodeRequest | server.cpp:167-191 | UPDATE is accepted only from at least 6 bytes and GETWORLD only from at least 2 (carrying byte 1); GETCLIENTINFO is recognised exactly when the first byte is its opcode; an empty datagram is ignored |
| Protocol.UpdateRoundTrip | server.cpp:171-176 | the server decodes exactly the keys and both angles the client encoded |
| Protocol.UpdateDecodedIsEncoded | server.cpp:171-176 | every datagram the server accepts as UPDATE starts with the encoding of what it decoded |
| Protocol.ConnectRequestsRoundTrip | server.cpp:177-188 | a GETWORLD for part p decodes as a request for p, and GETCLIENTINFO decodes as itself |
| Protocol.WorldPacket | server.cpp:34-38 | WORLD is 258 bytes: opcode, part number, then exactly map bytes part*256 to part*256+255 |
| Protocol.ClientInfoPacket | server.cpp:60-62 | CLIENTINFO is the opcode and the slot number |
| Protocol.PlayerUpdatePacket | server.cpp:90-95 | PLAYERUPDATE is 21 bytes: opcode, player index, then the three kha bytes at offsets 2-4 |
| Protocol.PlayerUpdateWordAt | server.cpp:96-97 | pv[j] is written big-endian at offsets 5+2j and 6+2j |
| Protocol.PlayerUpdateBytesAt | server.cpp:96-97 | the same, byte by byte |
| Protocol.DecodeReply | client.cpp:117-155 | WORLD is accepted only from at least 258 bytes (carrying byte 1 as part) and PLAYERUPDATE only from at least 21 bytes (with a 3-byte kha and 8 words); CLIENTINFO is accepted exactly from at least 2 bytes with its opcode; an empty datagram is disregarded |
| Protocol.WorldRoundTrip | client.cpp:121-133 | the client reads back the part number and exactly the 256 map bytes the server sent |
| Protocol.ClientInfoRoundTrip | client.cpp:134-139 | the client reads back the slot number the server sent |
| Protocol.PlayerUpdateRoundTrip | client.cpp:140-151 | the client reads back the player index, kha and all eight words the server sent |
| Server.FirstFree | server.cpp:142-156 | the lowest free slot, or -1 exactly when every slot is in use |
| Server.Lookup | server.cpp:203-207 | a used slot with the sender's address, or -1 exactly when no used slot has it |
| Server.HandleTouchesOnlySlot | server.cpp:167-191 | processPacket changes no slot but the sender's, and never its address or time stamp |
| Server.HandleIgnoresMalformed | server.cpp:167-191 | an empty datagram, a short UPDATE, a short GETWORLD or an unknown opcode changes nothing, calls nothing and sends nothing |
| Server.GetWorldOnlyWhileConnecting | server.cpp:177-183 | GETWORLD leaves the table alone; it is answered exactly when the slot is connecting and the part is at most 3, and the answer decodes to that part's 256 map bytes |
| Server.GetClientInfoActivates | server.cpp:184-188 | GETCLIENTINFO makes the slot active, respawns its player and sends `[P_CLIENTINFO, slot]` to it |
| Server.UpdateReachesGame | server.cpp:171-176 | a client's UPDATE reaches the game as setKeys and setAim with the same keys and angles |
| Server.ExpireBoundary | server.cpp:220-223 | exactly 5000 ms of silence is survived; 5001 ms frees a used slot |
| Server.Expired | server.cpp:220-223 | every removePlayer call the sweep makes is for a slot it freed |
| Server.Fanout | server.cpp:99-104 | every copy of a packet goes to an active slot and carries that packet |
| Server.FanoutDelivers | server.cpp:84-104 | every copy of an active player's PLAYERUPDATE goes to an active slot and decodes to that player's reported state |
| Server.BroadcastOnlyActive | server.cpp:74-110 | every broadcast datagram goes to an active slot and decodes to the reported state of an active player whose state the game could give |
| Server.ReceiptTouchesOneSlot | server.cpp:196-214 | a datagram changes at most the slot it is attributed to; that slot then holds the sender's address, a used state and the time stamp now; the states stay valid |
| Server.ReceiptDropsOrStamps | server.cpp:203-214 | when every slot is used by other addresses, a datagram from a new address is dropped without any effect; a known address always has its slot stamped now |
| Server.DrainStamps | server.cpp:196-215 | after the receive loop the states are still valid and the calls and datagrams have only grown; every changed slot was stamped now and holds the address of one of the senders |
| Server.DrainSnoc | server.cpp:196-215 | draining one more datagram adds exactly that datagram's Receipt |
| Server.BuildWorldPacket | server.cpp:34-38 | the byte loop builds exactly the WORLD layout |
| Server.BuildPlayerUpdate | server.cpp:90-97 | the byte loop builds exactly the PLAYERUPDATE layout |
| Server.ServerState.constructor | server.cpp:129-130 | every slot starts free, with nothing sent and no game call |
| Server.ServerState.ConnectClient | server.cpp:142-156 | the lowest free slot becomes connecting with the address and now; with no free slot -1 is returned and the table is unchanged |
| Server.ServerState.DisconnectClient | server.cpp:158-165 | a free slot is left alone; a used slot is freed and removePlayer is called for it once |
| Server.ServerState.SendWorld | server.cpp:19-48 | one WORLD datagram to the slot for a part up to 3, nothing for a larger part |
| Server.ServerState.SendClientInfo | server.cpp:50-72 | one CLIENTINFO datagram with the slot number, to that slot |
| Server.ServerState.ProcessPacket | server.cpp:167-191 | the table, the game calls and the datagrams sent change exactly as the handler specification says |
| Server.ServerState.Receive | server.cpp:203-214 | the table, the calls and the datagrams sent change exactly as Receipt says. A known address is handled in its slot, which is stamped now. An unknown address takes the first free slot, connecting, and is handled there. With no free slot the datagram is dropped |
| Server.ServerState.ReceiveAll | server.cpp:196-215 | the table, the calls and the datagrams sent are exactly the Drain of the pending datagrams, each handled as Receipt says, in arrival order |
| Server.ServerState.ReceiveNext | server.cpp:196-214 | one pass of the receive loop adds exactly that datagram's Receipt to what was drained before |
| Server.ServerState.SweepTimeouts | server.cpp:220-223 | every slot silent for more than 5000 ms is freed, and removePlayer is called for it; the others are unchanged |
| Server.ServerState.SendPlayerUpdates | server.cpp:74-110 | one PLAYERUPDATE per active player with a reported state, sent to every active slot |
| Server.ServerState.SendToActive | server.cpp:99-104 | the packet goes to every active slot in slot order |
| Server.ServerState.BroadcastTick | server.cpp:225-229 | the first call only starts the clock; afterwards there is a broadcast exactly when more than 50 ms passed since the last one, and that resets lasttick |
| Server.ServerState.UpdateServer | server.cpp:194-232 | the final table is the drained table with every slot silent for more than 5000 ms freed. The calls are the drained calls followed by one removePlayer per freed slot, in slot order. The datagrams are the drained replies, followed by the broadcast exactly when more than 50 ms have passed since the last one (never on the first call). Afterwards every used slot has been heard from within the last 5000 ms |
| Client.MissingParts | client.cpp:54-55 | the parts not yet downloaded, in strictly ascending order |
| Client.MissingPartsComplete | client.cpp:54-55 | every part not yet downloaded is among them |
| Client.MissingPartsEmpty | client.cpp:65 | nothing is missing exactly when every part is downloaded |
| Client.WorldRequests | client.cpp:57-63 | one GETWORLD per missing part |
| Client.WorldRequestsStep | client.cpp:54-64 | one more pass of the loop adds a GETWORLD exactly when that part is missing |
| Client.WorldRequestsDecode | client.cpp:57-63 | request k goes on channel 0 and asks, in the server's reading, for the k-th missing part |
| Client.NothingDownloadedAllMissing | client.cpp:13 | with nothing downloaded, part k is the k-th missing one |
| Client.ConnectRequestsFromScratch | client.cpp:44-64 | a fresh client asks for parts 0, 1, 2 and 3 in that order |
| Client.ConnectRequestsAskForMissing | client.cpp:53-72 | while a part is missing the requests ask for exactly the missing parts in ascending order and nothing else; once all four are present exactly one GETCLIENTINFO is sent |
| Client.Spliced | client.cpp:127-131 | a WORLD chunk overwrites exactly the bytes of its part; the rest of the map is unchanged |
| Client.NothingDownloadedAgrees | client.cpp:13 | a client with nothing downloaded agrees with any server map |
| Client.WorldPacketKeepsAgreement | client.cpp:121-133 | the server's WORLD datagram for a part makes those 256 bytes equal to the server's and marks the part downloaded, keeping every earlier part equal |
| Client.AllPartsGiveServerMap | client.cpp:127-132 | once all four parts are marked, the client's map is the server's |
| Client.RepliesSnoc | client.cpp:165-167 | the receive loop's next pass applies exactly that reply |
| Client.RepliesGrow | client.cpp:117-167 | draining replies loses nothing: the game calls only grow. The client is connected afterwards exactly when it was before or a CLIENTINFO arrived. A part is downloaded afterwards exactly when it was before or a WORLD chunk for it arrived |
| Client.ServerRepliesFromServer | server.cpp:19-97 | every WORLD, CLIENTINFO and PLAYERUPDATE the server builds for its map is a reply the agreement lemmas accept |
| Client.ApplyReplyKeepsAgreement | client.cpp:121-133 | one reply the server could have sent keeps every downloaded part equal to the server's map |
| Client.RepliesKeepAgreement | client.cpp:165-167 | draining any run of replies the server could have sent keeps every downloaded part equal to the server's map |
| Client.ConnectRequestLoop | client.cpp:53-72 | the part loop with its waiting flag sends exactly the connect requests the flags call for |
| Client.ReadPlayerWords | client.cpp:149-150 | the eight words read at offsets 5+2j are the big-endian decoding of bytes 5 to 20 |
| Client.ClientState.constructor | client.cpp:79-107 | nothing is downloaded, the status is 0, and the first connect request asks for all four parts |
| Client.ClientState.SendConnectRequest | client.cpp:44-77 | sends the connect requests for the current download flags |
| Client.ClientState.CopyChunk | client.cpp:130-131 | the 256 bytes at start are overwritten from offset 2 of the datagram; every other map byte is unchanged |
| Client.ClientState.ProcessPacket | client.cpp:117-156 | the map, flags, status and calls change exactly as ApplyReply says. WORLD splices its part and marks it downloaded. CLIENTINFO hands the id to the game and sets status 1. PLAYERUPDATE hands the decoded state to the game. Anything else changes nothing |
| Client.ClientState.SendClientUpdate | client.cpp:15-42 | one UPDATE on channel 0 when the game has input to give, nothing otherwise |
| Client.ClientState.UpdateClient | client.cpp:158-180 | after the receive loop, the map, flags, status and calls are exactly the pending replies applied in order (Replies). Then, while the resulting status is 0, the connect requests for the resulting flags are sent; once it is 1, the frame's UPDATE is sent |
| ZedIndex.EmptyIndexOk | game.cpp:127-128 | with every head -1 the index is sound with every list empty, and no zed is linked |
| ZedIndex.LinkedNeighbours | game.cpp:237-240 | a linked zed's cnext/cprev are its neighbours on the list of its cell |
| ZedIndex.UnlinkWrites | game.cpp:237-242 | the unlink writes only the zed's two neighbours and, when it was the head, its cell's head; no state or cell changes |
| ZedIndex.UnlinkOtherCell | game.cpp:237-242 | the list and head of every other cell stay as they were |
| ZedIndex.UnlinkOwnCellWrites | game.cpp:237-242 | on the zed's own list the predecessor takes its cnext, the successor its cprev, other entries are untouched, and the head moves on when the zed was the head |
| ZedIndex.UnlinkOwnCell | game.cpp:237-242 | the zed's own list loses it and stays sound |
| ZedIndex.UnlinkIndexOk | game.cpp:237-242 | unlinking a linked zed keeps the index sound, with the zed gone from its cell's list |
| ZedIndex.UnlinkListed | game.cpp:237-242 | after the unlink exactly the other linked zeds are linked |
| ZedIndex.UnlinkOk | game.cpp:237-242 | unlinking keeps the index sound, removes exactly that zed, and changes no state, no cell and none of the zed's own fields |
| ZedIndex.LinkWrites | game.cpp:243-248 | the linked zed records the new cell, has no predecessor and heads the cell; no other zed changes cell and no state changes |
| ZedIndex.LinkOtherCell | game.cpp:243-248 | linking leaves every other cell's list and head as they were |
| ZedIndex.LinkOwnCell | game.cpp:243-248 | the destination list with the zed put in front is sound, and the zed is its head |
| ZedIndex.LinkListed | game.cpp:243-248 | after the link the zed is linked and no other zed's standing changes |
| ZedIndex.LinkOk | game.cpp:243-248 | linking an unlinked zed keeps the index sound, puts it at the head of the destination list and changes no state |
| ZedIndex.RelinkSame | game.cpp:236 | when the zed's stored cell is its new cell, updateColInfo changes nothing |
| ZedIndex.RelinkAcross | game.cpp:237-248 | a zed that changed cells leaves its old list, heads the new one with cprev -1 and records the new cell; the index stays sound and no other zed changes cell |
| ZedIndex.RelinkOk | game.cpp:233-250 | updateColInfo keeps the index sound and the set of linked zeds; nothing changes when the cell is unchanged, otherwise the zed heads the new cell's list with cprev -1; no state and no other zed's cell changes |
| ZedIndex.MovedMembership | game.cpp:233-250 | relinking moves no other zed between lists, and the zed is on its new cell's list only |
| ZedIndex.UnlinkedWriteOk | game.cpp:178-190 | writing a slot that is on no list keeps the index sound and every other zed's standing |
| ZedIndex.StateWriteOk | game.cpp:549 | a state write keeps the index sound and every zed's standing: the index never reads states |
| ZedIndex.StateKeepsUnlink | game.cpp:569-573 | after a state write a zed unlinks with the same heads as before |
| ZedIndex.KillOk | game.cpp:395-403 | killZed keeps the index sound: the zed is freed with both links cleared and is on no list, and every other zed keeps its membership, state and cell |
| ZedIndex.KillKeepsCells | game.cpp:395-403 | killing a zed leaves every zed, the killed one too, on its cell |
| ZedIndex.LinkAsWritten | game.cpp:243-248 | as written, the link stores out of bounds exactly when the destination cell has no head, and then at that head's index |
| ZedIndex.LinkAsWrittenAgrees | game.cpp:243-248 | when the destination has a head, the code as written and the guarded link agree |
| ZedIndex.EmptyDestinationWritesMinusOne | game.cpp:245 | moving a linked zed into an empty cell makes line 245 store to zed[-1] |
| ZedIndex.WalkIntoEmptyCell | game.cpp:245 | a lone wandering zed walking from cell (15,12) into the empty cell (15,13) stores to zed[-1] |
| GameMap.BlocksOnlyStreetsOpen | game.cpp:132-146 | a map the building pass can leave has no block on the outer ring, in row 13 or in column 13 |
| GameMap.DoorBitsKeepInside | game.cpp:153-156 | setting a door bit sets that bit and never changes the block bit or the other door bit |
| GameMap.BlocksOnlyNoDoors | game.cpp:132-146 | a map fresh from the building pass has no doorways |
| GameMap.GrowsTrans | game.cpp:148-166 | adding doorways in two steps adds them in one |
| GameMap.GrowsKeeps | game.cpp:148-166 | adding doorways keeps the streets open and keeps every way into a block |
| GameMap.CarveOk | game.cpp:152-157 | a roll for a block only adds a doorway, in a face of a block, and a roll of 0 to 3 leaves the block enterable |
| GameMap.CarveWrites | game.cpp:152-157 | a roll of 0 to 3 sets one doorway bit, in a face of that block |
| GameMap.SetDoorX | game.cpp:153 | opening the east face of a block cell only adds a doorway, and keeps doorways on blocks |
| GameMap.SetDoorZ | game.cpp:154 | opening the south face of a block cell only adds a doorway, and keeps doorways on blocks |
| GameMap.CarveOpens | game.cpp:152-157 | a roll of 0 to 3 leaves the block with a doorway into it |
| GameMap.ByteWriteOk | game.cpp:153-156 | a byte write that keeps the block bit and adds doorways only in faces of blocks keeps doorways on blocks |
| GameMap.ClampBounds | game.cpp:255-258 | after the clamp a coordinate lies in [16+rad, 496-rad]; one already there is kept; clamping twice is clamping once |
| GameMap.ClampedCellInterior | game.cpp:255-263 | after the clamp the cell indices lie in 1..30, so the neighbour reads at lines 279-293 stay inside the map |
| GameMap.WallPushClears | game.cpp:278-295 | after the push a character keeps rad from every face of its cell that blocks it, and it is not moved along an axis where no face blocks it |
| GameMap.DoorwayLetsThrough | game.cpp:278-295 | applies at each of the four faces of the cell. Near a face with a block on either side and no doorway, a character is pushed back to rad from it. Near a doorway face, a character that fits between 4 and 8 along it is not pushed along that axis; the same holds near a face between two open cells. A character of radius 2 or more never passes a doorway |
| WorldGen.DemandGrows | game.cpp:169-171 | the packs demanded by the first cells never exceed those demanded by more cells |
| WorldGen.DemandBeforeInterior | game.cpp:169-170 | the cells before the interior demand no packs |
| WorldGen.DemandAfterInterior | game.cpp:169-170 | the cells after the interior demand no packs |
| WorldGen.DemandAtMostAllBlocks | game.cpp:171-176 | no map demands more packs than the map that is all blocks |
| WorldGen.BuildCellsSkip | game.cpp:134-135 | cells outside the interior leave a sweep's map as it is |
| WorldGen.BuildCellsGrow | game.cpp:132-146 | a block placed early in a sweep is still there later in the sweep |
| WorldGen.BuildCellsOk | game.cpp:132-146 | a sweep keeps every block, places blocks only where the coin came up, and a buildable cell whose coin came up and that the neighbour test accepted is a block afterwards |
| WorldGen.BuildingsOk | game.cpp:132-146 | the three sweeps leave only plain blocks, keep every block, and place new ones only where one of the coins came up |
| WorldGen.FirstCoinBuilds | game.cpp:132-146 | on the cleared map, cell (1,1) becomes a block when the first sweep's coin for it comes up |
| WorldGen.DoorCellsSkip | game.cpp:148-150 | cells outside the interior leave the doorway pass's map as it is |
| WorldGen.DoorStepOk | game.cpp:150-165 | one cell's doorways keep the blocks, add doorways only in block faces, and a block whose roll is 0 to 3 gets that doorway |
| WorldGen.DoorCellsOk | game.cpp:148-166 | the doorway pass only adds doorways, each in a face of a block, and every block whose first roll is 0 to 3 can be entered |
| WorldGen.DoorCellsGrow | game.cpp:148-166 | the doorway pass keeps the blocks and only adds doorways, each in a face of a block |
| WorldGen.DoorCellsCut | game.cpp:148-166 | every block the doorway pass has reached whose first roll is 0 to 3 can be entered |
| WorldGen.DoorCutStep | game.cpp:150-165 | one more cell of the doorway pass keeps the doorways cut before it and cuts its own |
| WorldGen.DoorCutCell | game.cpp:150-165 | the same for a single cell at or before the one handled |
| WorldGen.PackAt | game.cpp:170-186 | slot j holds the pack of the cell whose share of the slots (Demand(k) to Demand(k+1)-1) contains j. The pack is of the kind that cell's health coin picks, stands on that cell, and has no links |
| WorldGen.PackAtOk | game.cpp:170-186 | every slot's pack stands on an interior block whose cache coin came up with a positive size roll; it is a health pack exactly when that cell's health coin came up |
| WorldGen.PackAtGrows | game.cpp:168-192 | scanning further cells never changes the pack of a slot already written |
| WorldGen.PackAtSame | game.cpp:168-192 | cells that demand nothing leave the packs laid so far as they are |
| WorldGen.PacksLaidStep | game.cpp:170-191 | a cell's packs in the next slots, after the packs laid so far, are the packs laid for one more cell |
| WorldGen.OneCacheDemand | game.cpp:170-191 | on a map whose one block is cell (1,1), with its cache coin up and a size roll of 1, the cache pass writes exactly one pack |
| WorldGen.FreeSlotAfterPacks | game.cpp:178-199 | the slot after the packs is free, and every slot below it holds a pack |
| WorldGen.SpawnOk | game.cpp:199-210 | spawning a still slot into an empty cell keeps the index sound; the cell's list becomes that one zed, and it joins the linked zeds |
| WorldGen.SpawnRankStep | game.cpp:194-212 | the rank of the next cell in scan order is this cell's rank, plus one when this cell is a spawn spot; the first cell of a row follows the last of the row before |
| WorldGen.SpotsBeforeCount | game.cpp:194-212 | the closed-form rank of a cell counts the spawn spots before it in scan order |
| WorldGen.SpawnSpotCount | game.cpp:194-213 | the pass starts on rank 0 and fills 887 cells: the 900 interior cells less the 13 near the centre |
| WorldGen.SpawnRankBound | game.cpp:194-212 | every interior cell's rank is below 887, so the counter never reaches the last slot when the pass starts 887 slots below it |
| WorldGen.SpawnedStart | game.cpp:194-195 | before the first cell, no cell has a list |
| WorldGen.SpawnStep | game.cpp:196-212 | a spawn spot takes slot start plus its rank and the counter moves on by one; any other cell is skipped; the index stays sound |
| WorldGen.SpawnedRow | game.cpp:194-195 | past the last cell of a row the pass is at the first cell of the next |
| WorldGen.SpawnedCols | game.cpp:194-213 | after the zed pass, every spawn spot is headed by the wandering zed in slot start plus its rank, every other cell is empty, and the counter stands at start+887 |
| Game.FirstTakeable | game.cpp:445-466 | the lowest takeable slot from k on, or -1 when none is takeable |
| Game.Gain | game.cpp:448-463 | a health pack adds 25 health capped at 100; an ammo pack adds 30 ammo capped at 120; the other value is kept |
| Game.PickupSlot | game.cpp:444-466 | without E nothing is taken; otherwise the lowest takeable slot is taken, or none when no slot is takeable |
| Game.PickupCaps | game.cpp:444-466 | a pack is taken only when it raises its value below the cap; health never exceeds 100 and ammo never exceeds 120; at both caps nothing is taken |
| Game.FirstFreeBullet | game.cpp:473-474 | the lowest free bullet slot from k on, or -1 when all are in flight |
| Game.Shoot | game.cpp:469-485 | ammo drops by one exactly when ammo is left, the button is held, the delay has run out and a slot is free; only the first free slot is filled; the delay resets even when no slot is free |
| Game.NextState | game.cpp:539-583 | wandering turns to attacking exactly when the zed was pushed and the player is in range; attacking turns to wandering exactly on a touch or a push; dead, idle, pack and free slots keep their state |
| Game.Hit | game.cpp:564-567 | a hit costs 30 health; the player respawns with full health exactly when health was below 30; health stays within 0..100 |
| Game.RelinkKeepsMoving | game.cpp:233-250 | updateColInfo keeps the index sound and the linked zeds exactly the moving ones |
| Game.KillKeepsMoving | game.cpp:395-403 | killZed keeps the index sound and the linked zeds exactly the moving ones |
| Game.StateWriteKeepsMoving | game.cpp:549 | a state write that neither starts nor stops a zed moving keeps the index sound and the linked zeds the moving ones |
| Game.AfterHits | game.cpp:564-568 | after n hits health is as the hits leave it, and ammo and fire delay are reset exactly when one of the hits respawned the player |
| Game.AfterHitsStep | game.cpp:564-568 | one more hit after n hits is the same as n+1 hits |
| Game.HitsBounded | game.cpp:564-567 | however many hits land, health stays within 0..100 |
| Game.HitsWithoutRespawn | game.cpp:565-566 | hits that do not drive health below 0 take exactly 30 each and never respawn the player |
| Game.HitsRespawn | game.cpp:565-567 | enough hits to drive health below 0 always respawn the player |
| Game.HitsSomeRespawn | game.cpp:565-567 | once health is below 30*(k+1), more than k hits respawn the player |
| Game.RelinkAndSetOk | game.cpp:547-549 | relinking a moving zed and setting a moving state keeps the index sound and the linked zeds the moving ones; the zed records its new cell, and no other zed changes state or cell |
| Game.ZedStepFacts | game.cpp:539-583 | one pass of the switch keeps the index sound and the linked zeds the moving ones; the zed takes the state NextState gives it and, if it moves, the observed cell; a still zed is untouched; no other zed changes |
| Game.ZedStepMoving | game.cpp:543-576 | the same facts for a moving zed |
| Game.ZedStepWander | game.cpp:543-560 | the same facts for a wandering zed |
| Game.ZedStepAttack | game.cpp:561-576 | the same facts for an attacking zed |
| Game.ZedsProgressStep | game.cpp:539-583 | one pass of the zed loop extends by one slot the prefix that has its new state and cell |
| Game.KillsProgressStep | game.cpp:494-496 | one more kill extends the set of shot zeds: they are free and unlinked, the others keep their standing, and every zed keeps its cell |
| Game.World.RespawnPlayer | game.cpp:65-78 | health 100, ammo 30, fire delay 0.5 |
| Game.World.UnlinkSlot | game.cpp:237-242 | the arrays become the unlinked snapshot |
| Game.World.LinkSlot | game.cpp:243-248 | the arrays become the linked snapshot, guarded for an empty destination |
| Game.World.UpdateColInfo | game.cpp:233-250 | the arrays become the relinked snapshot, the lists move the zed to its new cell, and the world stays valid |
| Game.World.KillZed | game.cpp:383-404 | the arrays become the killed snapshot, the zed leaves its list, and the world stays valid |
| Game.World.SetState | game.cpp:549 | only the zed's state changes; the world stays valid and every zed keeps its standing |
| Game.World.Pickup | game.cpp:443-466 | exactly the slot PickupSlot picks is freed, and health and ammo gain as Gain says; if it picks none nothing changes |
| Game.World.Fire | game.cpp:468-485 | bullets, ammo and delay change exactly as Shoot says |
| Game.World.TakeHit | game.cpp:564-568 | health, ammo and delay are as one hit leaves them |
| Game.World.WanderStep | game.cpp:543-560 | the arrays and lists become one pass of the switch for a wandering zed; the world stays valid |
| Game.World.AttackStep | game.cpp:561-576 | the same for an attacking zed, and the player takes one hit exactly when the zed touched it |
| Game.World.StepZed | game.cpp:539-583 | one pass of the switch for any slot, with the hit an attacking zed's touch deals |
| Game.World.UpdateZeds | game.cpp:538-584 | every zed takes the state NextState gives it; every moving zed ends up in its observed cell and the others keep their cell; the player takes one hit per attacking zed that touched it; the world stays valid |
| Game.World.ZedPass | game.cpp:539-583 | one slot of the zed loop, with its hit |
| Game.World.BulletStep | game.cpp:489-512 | a bullet that hits nothing keeps flying; one that hits anything stops, and a zed it hits is killed |
| Game.World.UpdateBullets | game.cpp:487-528 | exactly the bullets that hit nothing stay in flight; exactly the zeds hit are freed and unlinked; every other zed keeps its state and standing; every zed, shot or not, keeps its cell |
| Game.World.BulletPass | game.cpp:488-528 | one slot of the bullet loop extends the flying flags and the set of shot zeds, with every zed still on its cell |
| Game.World.Init | game.cpp:80-221 | a valid world with the player at its spawn values and no bullet in flight. The map is exactly the doorway pass applied to the building passes on the cleared map: every block had its coin come up, and every doorway is in a face of a block. Slots 0..d-1 hold the d packs the map demands, in scan order, each on its cell and of its kind (PackAt). Each spawn spot holds a wandering zed in slot d plus its rank, and slots from d+887 on are free |
| Game.World.Setup | game.cpp:116-221 | the same as Init, with the packs pinned slot by slot, on arrays of the right sizes |
| Game.World.ClearMap | game.cpp:125-126 | every map byte is 0 |
| Game.World.ClearCols | game.cpp:127-128 | every head is -1 |
| Game.World.ClearZeds | game.cpp:129-130 | every slot's state is Z_NONE and its other fields are kept |
| Game.World.ClearBullets | game.cpp:215-216 | no bullet is in flight |
| Game.World.BuildMap | game.cpp:131-166 | the map is exactly the doorway pass applied to the building passes on the cleared map, so it has blocks only where coins came up, doorways only in faces of blocks, a doorway into every block whose roll is 0 to 3, and open streets |
| Game.World.Populate | game.cpp:167-213 | the packs the map demands fill slots 0..d-1 as PackAt says. Each spawn spot holds a wandering zed in slot d plus its rank in the scan, the 887 spots fill slots d..d+886, the slots after those are free, and the world is valid |
| Game.World.PopulateAsWritten | game.cpp:167-213 | the zed pass starts where the cache pass leaves c. The last pack's slot, d-1, then holds the wandering zed of cell (1,1), and only the d-1 packs before it survive |
| Game.World.GenerateBuildings | game.cpp:132-146 | the map becomes Buildings of the old map: the three sweeps' blocks, cell by cell. Hence only plain blocks, every old block kept, and new blocks only where a coin came up |
| Game.World.BuildRow | game.cpp:134-145 | one row of a sweep extends the map to BuildCells of the next row's first cell |
| Game.World.BuildCell | game.cpp:135-144 | cell (ix, iy) of a sweep changes the map exactly as BuildStep says: a block on a buildable cell whose coin came up, unless refused |
| Game.World.PlaceBlock | game.cpp:136-144 | the cell becomes a plain block unless the neighbour test refuses it, in which case the map is unchanged; no other cell changes |
| Game.World.CarveAt | game.cpp:152-157 | the map becomes one roll of the doorway switch |
| Game.World.CarveDoorways | game.cpp:148-166 | the map becomes Doorways of the old map, both rolls included. Hence doorways are only added, each in a face of a block, and every block whose first roll is 0 to 3 can be entered |
| Game.World.DoorCell | game.cpp:150-165 | a block gets the doorway of its roll and then, when the extra coin comes up, that of the second roll; any other cell is left alone (DoorStep) |
| Game.World.DoorRow | game.cpp:149-165 | one row of the doorway pass extends the map to DoorCells of the next row's first cell |
| Game.World.PlacePack | game.cpp:178-190 | the first free slot, which is the one after the packs, takes a pack of the given kind on the cell with no links. No other slot changes, and the scan stays on that slot |
| Game.World.StockCell | game.cpp:176-191 | s*s packs of the cell's kind, standing on the cell, fill the next slots; the earlier slots are unchanged |
| Game.World.StockRow | game.cpp:177-191 | s packs of the cell's kind, standing on the cell, fill the next slots; the earlier slots are unchanged |
| Game.World.PlaceCaches | game.cpp:167-192 | exactly the packs the map demands are written into slots 0..d-1, in scan order, each on its cell and of its kind, as PackAt says |
| Game.World.CacheRow | game.cpp:170-191 | after row iz, the slots hold exactly the packs of the cells scanned so far, as PackAt says, and the count is the demand up to the next row's first cell |
| Game.World.CacheCell | game.cpp:170-191 | after cell (ix, iz), the slots hold exactly the packs of the cells scanned so far, as PackAt says |
| Game.World.SpawnAt | game.cpp:199-210 | the arrays become the spawned snapshot; the cell's list becomes the one zed |
| Game.World.SpawnZeds | game.cpp:194-213 | every spawn spot gets a wandering zed of its own in slot start plus its rank in the scan, alone on its list, and no other cell has a list. The first spawn spot, cell (1,1), takes slot start. Slots below start and from start+887 on are untouched |
| Game.World.SpawnCell | game.cpp:196-212 | a spawn spot takes slot c and the counter moves on to c+1; any other cell leaves the counter at c. The spawned cells grow by that cell, and cell (1,1) keeps slot start |
| Game.World.SpawnRow | game.cpp:195-212 | one row of the zed pass extends the spawned cells to the first cell of the next row and keeps the index sound |

## Left out

- Rendering, input, the health HUD, particles, the camera, SDL and OpenGL setup and their failure paths are UI and OS plumbing.
- Floating point.
  - Movement, the circle push-apart between zeds (game.cpp:269-276) and all of collideLine are left out. Their results enter as `Sighting` fields and as the `hits` argument.
  - The clamp and wall push are over the reals, not IEEE floats.
  - The zeds' x, y, z and rot fields are not modelled.
- Randomness. The Mersenne Twister is replaced by oracle functions of the cell being visited; a real run draws in scan order.
- The opcode values live in net.h, which is not part of this model. Distinct stand-in constants are used.
- The SDL_net calls are not modelled. Sends append to `sent`, the clock is `now`, and packet allocation failure and send failure are not modelled.
- The 32-bit wrap-around of SDL_GetTicks is not modelled; time is an unbounded integer.
- Server.ServerState.ConnectClient: a failing SDLNet_UDP_Bind (server.cpp:145-148) makes the source return -1 and drop the datagram although a slot is free. The model always takes the free slot.
- Server.ServerState.ConnectClient: the new slot is stamped with the `now` that updateServer read when it started. The source reads SDL_GetTicks afresh (server.cpp:151), which can be slightly later.
- `Game::getMap` returning null (server.cpp:24-26, client.cpp:124-126) is not modelled.
- The `Game::` calls with no body in game.cpp are recorded as calls, not modelled: setKeys, setAim, getPlayerUpdate, setPlayerUpdate, removePlayer, respawnPlayer(int), setClientID, getClientUpdate. The answer of getClientUpdate (client.cpp:26) is the `u` argument of Client.ClientState.SendClientUpdate.
- Game.World.UpdateBullets: requires that collideLine only returns zeds that are on a list, and never the same zed for two bullets of one frame. This holds because collideLine walks the cell lists, which the earlier kill has already updated.
- Game.World.UpdateZeds: requires each moving zed's observed cell to be on the grid. The source reads that cell from the position after three steps: the clamp (game.cpp:255-258), the push-apart from the zeds on the cell's list (game.cpp:269-276, up to 1.6 units per zed) and the wall push (game.cpp:278-295). These are float computations that are not modelled, so the bound is taken as given, not derived.
- Game.World.Init: requires the packs of the all-blocks map plus the 887 zeds to fit in the 4096 slots. Two source paths lie outside that requirement and are not modelled. Once every slot is taken, the cache pass runs `c` up to MAX_ZEDS (game.cpp:178), and the zed pass then writes `zed[MAX_ZEDS]`, one past the array (game.cpp:199). With fewer slots left, the zed counter stops at 4095 (game.cpp:211-212).
- Game.World.Init: uses the corrected zed start (the first free slot after the packs), not the source's start, which is the last pack (see Findings).
- Game.NextState: in the wandering case, the push-apart from the player when it does not collide (game.cpp:554-559) changes only floats and the heading, so it is not modelled.

## Findings

| source | as written | input that shows it | evidently intended | confidence | as-written member | corrected member |
|---|---|---|---|---|---|---|
| game.cpp:245 | `updateColInfo` stores `i` into `zed[zed[i].cnext].cprev` without checking that the destination cell had a head | a lone wandering zed in cell (15,12) walks into cell (15,13), which init leaves empty: `cnext` is -1 and the store goes to `zed[-1]` | store the back link only when the destination list was non-empty | not executed | ZedIndex.WalkIntoEmptyCell | ZedIndex.RelinkOk |
| game.cpp:178-199 | the pack loop breaks before `c++`, so `c` stays on the last pack written, and the zed pass writes its first zed at `zed[c]` | any map where some block's cache coin comes up with a non-zero size roll, for example the map whose one block is cell (1,1), with its coin up and a size of 1 (WorldGen.OneCacheDemand): the last pack's slot is overwritten by the wandering zed of cell (1,1) | start the zed pass on the first free slot after the packs | not executed | Game.World.PopulateAsWritten | Game.World.Populate |

# Verified model of the UB utilities

`lsub` and `setub` show and configure the entities of a unified bus. This project models the parts of
them that compute something intricate and proves what those parts are for. To check all of it, run
`dafny verify dfyconfig.toml` with Dafny 4.11.

## The topology printout (`lsub -t`)

Three phases work on one mutable object graph, and each relies on what the phase before it leaves.

* `Network` is the graph as a value. `Linking` describes how ports are paired while they are allocated,
  first for arbitrary `direct_link` lines (every link after any run of insertions, `LinkLaw`), then for
  symmetric ones, where links are exactly the declared peers in both directions, whatever the order.
* `Parents` says what the parent scan leaves: an entity has a parent exactly when a bus controller reaches
  it inside its own domain, and the parent numbers form a forest under the controllers.
* `Drawing` is the traversal and the layout without the buffer. `Expansion` proves which tree is drawn: each
  entity with a parent is expanded once, below that parent and where it is first mentioned there. `Counting`
  proves how many lines and ports that makes, `Depth` that an entity stands as deep as its parent chain is
  long, `Extent` how many columns the text takes.
* `Picture` is a reference for the layout that speaks only of rows and columns, with heights of its own: an
  entity at depth d stands in column 2 + 20d, and bars connect siblings and nothing else. Exactly one
  list of lines shows the picture of a tree, the printout.
* `Scanning` is the parent scan as a function of the network and the device order, and the proof that it settles.
  `FirstServed` says which parent each entity gets, without the scan: the neighbour of its domain that is scanned first,
  pass by pass in list order. This determines the parent numbers completely.
* `Topology`, `Growing` and `Printing` are the same three phases as the program has them: classes with
  fields that are overwritten, loops over port lists, and one character buffer that every line is
  printed from and then blanked for the next. Each method is proved against the value model, ending in
  `Printing.ShowTopo`, from the `direct_link` lines to the characters on standard output.
* `LongRow` is the data on which the drawing outgrows its buffer. `ManPage` holds examples: the one
  of the manual page followed from its `direct_link` lines to the two lines shown (`ManPage.Example`), and two
  linked controllers, the second of which is quoted before it is expanded (`ManPage.QuotedFirst`).

## The names (`ub.ids`)

* `IdTable` is the chained hash table, refined to the history of successful insertions.
* `IdsFile` is the line reader as functions, `IdsReader` the reader in its own form: a line buffer cut in
  place, cursors, and a context of ids that every line changes.
* `IdsGrammar` relates the reader to the two-level grammar that the head of `ub.ids` documents, and
  `IdsRoundTrip` writes a database as text and reads it back.

## Fields, GUIDs and registers

* `Numeral` says which texts the C library reads as hexadecimal numbers.
* `Bits` proves the bit extractor against arithmetic on the little-endian number in a buffer.
* `Guid` crosses the tools: one parses and packs GUIDs, the other unpacks and prints them.
* `RegisterOp` is the parser for `position.width=value`; `ReadError` the compressed report of unreadable
  addresses; `BusInstances` the windowed reading of bus instances into a list with a tail pointer;
  `RouteMap` and `RouteTable` the layout and the display of the route table.

`Hex`, `Layout` and `Wrappers` are shared pieces.

## Where the code and its documentation differ

The model follows the code.

* The manual page's example (lsub.man:38-39) lists port 000 above port 001. Ports are put first in
  their list (lib/common.c:240-241), so they are drawn newest first; `ManPage.Example` has the
  line of port 000 last in the controller's file.
* The insertion test of the name table reads `n->id56` where a comparison with the new `id56` was
  meant (lsub/ids.c:188). Duplicates are accepted and the newest wins. What is refused instead is a class
  entry that shares its bucket with class 00, subclass 00 once that is stored. `TestFindsDuplicatesIff`
  and `InsertableIff` give the exact conditions, `RefusedFile` a duplicate-free file that is refused.
* Subclass code ff has the key of the class itself (lsub/ids.c:26, 279): `IdentityDecides`.
* The line buffer of the printout has 2048 bytes (lsub/topo.c:247), which nothing checks. The drawing fits exactly
  when no parent chain has more than 101 entities, or 102 when it starts at an entity without a linked port
  (`Depth.FitsIffChainsFit`); a row of 102 linked entities does not fit (`LongRow.FitsIff`).
* Quotes mark more than repetitions (lsub.man:32): an entity is expanded where its parent first mentions it, and
  quoted everywhere else, before and after (`Expansion.ExpandsEachAssignedOnce`).
* One white character is cut from the end of a line, not all (lsub/ids.c:388-389): `IdsFile.WhiteStaysIff`.
* An `S` line looks for its vendor under the sixth id that the line before left (lsub/ids.c:256-260), so behind a
  subclass line it fails although the vendor is stored: `IdsFile.VendorFoundIff`, with `IdsFile.VendorMissed` as an instance.
* At nesting level 2 the second id overwrites `subsys_vendor_id` instead of setting `subsys_id`
  (lsub/ids.c:350-354): `IdsFile.SubsystemStoredIff`, with `IdsFile.SubsystemMisplaced` as an instance.
* A route table without ports has rows of 2^27 words, one of which is the default row itself (lsub/lsub.h:158):
  `RouteTable.RowsApartIff`.

## Assumptions about the data

Entity numbers are unique and have at most five hex digits, port numbers at most three (these are the
formats they are read with, lib/sysfs.c:300, 448). An entity starts unscanned, unprinted and without a parent
(lib/sysfs.c:392). `Symmetric` is what `direct_link` data promises: each port is declared once, none as its
own peer, and a declared peer names the port back. It is assumed only where a lemma says so.

## Model

| member | source | states |
|---|---|---|
| Linking.TargetIsNewest | lib/common.c:131-162 | the two lookups together meet the newest port that answers to the entity and port numbers, and fail only when no port does |
| Linking.AllocTouchesOnlyItsPeer | lib/common.c:232-241 | one insertion changes the link of the one port it meets and leaves every other port as it was |
| Linking.RunKeepsWf | lib/common.c:215-244 | after any run of insertions every list holds exactly the ports of its entity, newest first |
| Linking.LinkLaw | lib/common.c:215-244 | for arbitrary data, a port ends linked to the last later port that met it, else to the port it met itself, else to nothing |
| Linking.LinkedIffDeclared | lib/common.c:215-244 | for symmetric data, after any sequence of insertions, a port is linked to another exactly when that one is inserted and its declared peer |
| Linking.SymmetricLinksAreInvolution | lib/common.c:236-238 | for symmetric data a peer's peer is the port itself, and no port is its own peer |
| Linking.InvolutionKeptIffUnlinked | lib/common.c:233-238 | an insertion keeps the links an involution exactly when the port it meets was still unlinked |
| Topology.Machine.GetEnt | lib/common.c:150-162 | the walk over the entity chain finds the entity the value model finds, or null |
| Topology.Machine.GetPort | lib/common.c:131-148 | the walk over a port list finds the first port with the number, or null |
| Topology.Machine.AllocPort | lib/common.c:215-244 | after the pointer writes the heap is the network after one insertion |
| Topology.Entity.IsController | lsub/lsub.h:298-306 | an entity is a controller exactly when its type is 2 and its class code is a multiple of 256 |
| Growing.ReadLinks | lib/sysfs.c:281-313 | one port is inserted per well-formed line, in file order; lines with a syntax error insert nothing |
| Growing.DeclIsAt | lib/sysfs.c:296-309 | each well-formed line makes one declaration with its three numbers in their places, device by device and line by line, and nothing else makes one |
| Growing.Mark | lsub/topo.c:79-90 | exactly the integrated controllers get the host mark and join the controller list, in device order |
| Growing.Grow | lsub/topo.c:69-104 | growing leaves the network that all lines describe, the parents that scanning its devices in list order gives, and the list of all its controllers in that order |
| Topology.Machine.Offer | lsub/topo.c:42-48 | a peer without a parent in the same domain takes the entity's number, nothing else changes, and a change is reported exactly when there is one |
| Topology.Machine.PresetSub | lsub/topo.c:29-54 | parents and scan marks become what scanning this one entity makes of them |
| Topology.Machine.Pass | lsub/topo.c:62-65 | one loop over the device list is one pass, and its flag says exactly whether a parent was set |
| Topology.Machine.PresetAll | lsub/topo.c:56-67 | for every device order the loop ends, with the parents and scan marks of the scan function |
| Scanning.Pass | lsub/topo.c:62-65 | a pass overwrites no parent, and one that sets a parent scans a new entity |
| Scanning.ScanAll | lsub/topo.c:56-67 | the passes end, and none of them overwrites a parent |
| Scanning.PassKeepsSane | lsub/topo.c:56-67 | after any pass the parents form a forest and no scanned entity has a neighbour of its domain without a parent; after a pass without change every device with a parent is scanned |
| Scanning.ScanSettles | lsub/topo.c:56-67 | from the start, for every device order, the scan ends with a forest in which no neighbour inside a domain is left out |
| Scanning.DeviceOrderIrrelevant | lsub/topo.c:63-65 | every device order gives the same entities a parent |
| FirstServed.ScanServes | lsub/topo.c:56-67 | the scans fall into passes, controllers in pass 0 and a child in the pass of its parent or, when listed before it, in the next; each entity has the number of the neighbour of its domain that is scanned first |
| FirstServed.ServedOnce | lsub/topo.c:56-67 | there is at most one way to give out parents like that |
| FirstServed.ParentsOfIff | lsub/topo.c:56-67 | so parent numbers are those of the program exactly when they are given out like that |
| Parents.ForestGrows | lsub/topo.c:43-47 | handing a number to an entity without a parent keeps the forest: ranks strictly increase away from the controllers |
| Parents.ParentsFormForest | lsub/topo.c:29-67 | the parent chain of every entity with a parent never comes back, goes over links inside one domain to the unique entity with the number, and ends at a controller under the host mark |
| Parents.AssignedIffReachable | lsub/topo.c:29-67 | after the scan an entity has a parent exactly when some controller reaches it along links inside one domain |
| Parents.OrderIrrelevant | lsub/topo.c:56-67 | networks with the same adjacency give the same entities a parent, whatever the order of devices and ports |
| Parents.AdjIsDeclared | lsub/topo.c:42-45 | for symmetric data two entities are adjacent exactly when they share a domain and a line of one names a port of the other |
| Parents.InsertionOrderIrrelevant | lib/sysfs.c:296-309 | the same lines read in another order lead to the same entities having a parent |
| Drawing.Visit | lsub/topo.c:122-140 | the traversal terminates on every network, and only ever adds entities of the network to the printed ones |
| Expansion.VisitOpens | lsub/topo.c:122-195 | one call expands exactly the entities it marks as printed, each once |
| Expansion.VisitCompletes | lsub/topo.c:122-195 | what one call prints has a parent, and with an entity all its children across its ports are printed |
| Expansion.ChainIsPrinted | lsub/topo.c:197-243 | once the controllers are printed and every printed entity's children are, every entity with a parent is |
| Expansion.VisitNests | lsub/topo.c:122-195 | one call lists all ports of each entity it expands, and expands below an entity only those that carry its number as their parent in its domain |
| Expansion.VisitFirstsOpen | lsub/topo.c:130-138 | a mention is expanded exactly when the mentioning entity is the parent and the mentioned one was not expanded before |
| Expansion.ExpandsEachAssignedOnce | lsub/topo.c:122-243 | the printout expands exactly the entities with a parent, each exactly once, below its parent and at the first mention there, despite cycles and parallel links |
| Counting.TreeLines | lsub/topo.c:133-134 | lines plus expansions of any tree are the ports of its expanded entities plus one |
| Counting.PortlessAreControllers | lsub/topo.c:171-174 | an entity with a parent and no port is a controller |
| Counting.LinesPrinted | lsub/topo.c:166-243 | lines printed are the ports of the expanded entities, less the expanded entities that are no controllers, plus the controllers without ports |
| Counting.EachPortListedOnce | lsub/topo.c:166-195 | each port of an entity with a parent is listed once as a source port, and no other port ever is |
| Extent.Widths | lsub/topo.c:133-163 | quoted and expanded entities and ports take 8, 9 and 5 characters |
| Extent.VisitEchoes | lsub/topo.c:181-194 | an entity reached over a link shows that link back |
| Extent.TreeReach | lsub/topo.c:122-195 | a tree of n nested expansions reaches at most 20n + 10 characters, exactly that when each entity shows a link |
| Depth.DepthsAreChains | lsub/topo.c:122-243 | an entity is expanded at depth d exactly when its parent chain has d + 1 entities |
| Depth.LevelsAreChains | lsub/topo.c:122-243 | the drawing has at most b levels exactly when no parent chain has more than b entities |
| Depth.FitsIffChainsFit | lsub/topo.c:245-254 | for all data the drawing stays inside the 2048 bytes exactly when no parent chain has more than 101 entities, 102 when it starts at an entity without a linked port |
| Depth.MutualFitsIff | lsub/topo.c:245-254 | when links are mutual that is exactly when no chain has more than 101 entities |
| LongRow.Neighbours | lib/sysfs.c:296-309 | the direct_link lines of a row make exactly the entities beside each other adjacent |
| LongRow.FitsIff | lsub/topo.c:247 | a row of n linked entities fits the line buffer exactly when n is at most 101, so one of 102 is an input that overruns it |
| Picture.BlockHeight | lsub/topo.c:122-195 | a tree takes one row for a mention, and for an expansion the rows of its ports together, at least one |
| Picture.TreeDrawn | lsub/topo.c:122-195 | wherever a tree's block hangs, its entity stands at the end of the prefix, its ports nine columns on, blanks below the text for the height of the tree |
| Picture.KidsDrawn | lsub/topo.c:185-194 | siblings stand in the same columns, each as far below the last one as that is high, with a bar down from each that has a successor and blanks under the last |
| Picture.PrintoutIsPicture | lsub/topo.c:197-243 | the whole printout has as many rows as the picture of its forest and shows it, with the controllers branching off in column 1 |
| Picture.PictureIsPrintout | lsub/topo.c:197-243 | lines that have as many rows as the picture and show it are the printout, and no others |
| Layout.HangHang | lsub/topo.c:106-118 | writing a text in two pieces and blanking it gives the lines of the joined piece |
| Layout.HangAppend | lsub/topo.c:106-118 | lines below the first continue from the blanked prefix |
| Printing.PrintLine | lsub/topo.c:106-118 | the line and a line feed go out; the buffer keeps bars under branches and bars, and blanks elsewhere |
| Printing.ShowOne | lsub/topo.c:122-140 | drawing one entity through the buffer sends out exactly its block hung from what the buffer held, marks what the traversal marks, and leaves the old prefix blanked |
| Printing.ShowDst | lsub/topo.c:142-164 | the same for the far end of a port, or a bare line end when it is unlinked |
| Printing.ShowSrc | lsub/topo.c:166-195 | the same for all ports of an entity: none, one, or several with branch characters and a corner |
| Printing.ShowUbcs | lsub/topo.c:197-243 | the same for all controllers, each seen from the host mark of its own domain |
| Printing.ExpandsReachable | lsub/topo.c:245-254 | the drawing of a network expands each entity that some controller reaches inside its domain once, and no other |
| Printing.FitsIff | lsub/topo.c:247-254 | the condition on the parent chains that the printout asks for holds exactly when its drawing stays inside the line buffer |
| Printing.FitsIffShallow | lsub/topo.c:247-254 | for symmetric data it holds exactly when no parent chain has more than 101 entities |
| Printing.ShowTopo | lsub/topo.c:245-255 | from the lines of direct_link to standard output: exactly the drawing of the described network is sent, and exactly the reachable entities end up expanded |
| Hex.PrintThenRead | lsub/topo.c:133 | a number printed in hexadecimal with any padding reads back as itself |
| Hex.ReadThenPrint | setub/setub.c:392-394 | hex digits read and printed at their own width come back in lower case |
| Hex.DigitTable | lsub/ids.c:217-222 | the n-th of 0123456789abcdef stands for n in both directions, its upper-case form is read as n too |
| Hex.HexDigitsAre | lsub/ids.c:217-224 | these 22 characters are the hex digits, and no others |
| Hex.NoLeadingZero | lsub/topo.c:133-137 | beyond its width a number is printed without leading zeros |
| Numeral.WholeIffSpelled | lib/common.c:59-105 | the texts read to their end as a number are blanks, a sign, 0x or 0X, each possibly missing, and hex digits; no others |
| Numeral.SpaceIs | lib/common.c:68 | the blanks in front of a number are the six white characters of the C locale |
| IdTable.KeysTellIdsApart | lsub/ids.c:73-77 | for 16-bit ids two keys are equal exactly when all six ids and the category are |
| IdTable.BestAnswers | lsub/ids.c:94-104 | what a lookup in a history gives is the newest among the entries of highest source with the key, and nothing exactly when the key is absent |
| IdTable.ScanIsBest | lsub/ids.c:94-104 | walking the key's own bucket gives what the whole history gives |
| IdTable.Table.Lookup | lsub/ids.c:79-107 | the table answers as its insertion history does |
| IdTable.Table.Insert | lsub/ids.c:154-206 | an entry joins the history unless the insertion test finds a blocking entry or the entry is too long; every bucket stays the history's |
| IdTable.FitsIff | lsub/ids.c:166-169 | a name is short enough to be stored exactly when it has at most 998 characters |
| IdTable.BlockedIff | lsub/ids.c:188-191 | a key is refused exactly when the same key with id56 zero is stored and has the same hash |
| IdTable.TestFindsDuplicatesIff | lsub/ids.c:188-191 | the test tells duplicates of a key, whatever is stored, exactly for keys with id56 zero |
| IdTable.DuplicateVendorAccepted | lsub/ids.c:188-191 | a second vendor with the same id is stored and hides the first |
| IdsReader.IdHex | lsub/ids.c:208-227 | the digit loop gives the value of the digits, or -1 at the first character that is none |
| IdsReader.Preprocess | lsub/ids.c:376-404 | in place: too long, ignored, or cut at the line end, trimmed of one white character, with the number of leading tabs |
| IdsFile.WhiteStaysIff | lsub/ids.c:388-389 | a line keeps a white character at its end exactly when two stood there |
| IdsGrammar.IgnoredIff | lsub/ids.c:391-397 | a line is passed over exactly when it holds nothing but blanks and tabs, or a number sign behind them with anything after it |
| IdsFile.TooLongIff | lsub/ids.c:382-386 | a file is refused for a long line exactly when 1023 characters go by without a line end |
| IdsReader.Reader.ParseTop | lsub/ids.c:234-282 | class, subsystem, reserved and vendor lines set the context or fail as the reading function says |
| IdsReader.Reader.ParseLevel1 | lsub/ids.c:284-336 | a line behind one tab is read under the category of its block |
| IdsReader.Reader.ParseLevel2 | lsub/ids.c:338-374 | a line behind two tabs is read as the reading function says |
| IdsFile.SubsystemStoredIff | lsub/ids.c:347-357 | subsystem ids x and y behind a device are stored under their own key exactly when both are zero, and else under y and zero |
| IdsFile.SubsysStaysZero | lsub/ids.c:234-374 | no line ever sets the sixth id |
| IdsFile.ReservedOpens | lsub/ids.c:264-268 | a capital letter other than C and S opens a block that is passed over |
| IdsFile.ReservedPasses | lsub/ids.c:436-437 | lines nested in it are passed over, whatever they hold |
| IdsFile.SubsystemOpensIff | lsub/ids.c:252-263 | an S line opens its block exactly when an entry is stored under its vendor and the sixth id left before |
| IdsFile.VendorFoundIff | lsub/ids.c:256-260 | these are the vendor's own ids exactly when the line before left ff |
| IdsFile.GenericReads | lsub/ids.c:304-312 | lines nested in an S block keep its category and vendor |
| IdsFile.ThirdCodeReads | lsub/ids.c:358-368 | a third code in a class block leaves the class and subclass as they were |
| IdsFile.TooDeepFails | lsub/ids.c:446-448 | a third level of nesting is an error |
| IdsReader.Reader.ParseLine | lsub/ids.c:424-455 | nesting selects the parser; an entry without a name is an error |
| IdsReader.Reader.ParseList | lsub/ids.c:406-459 | the table, the error and the line count are those of the file read from its start |
| IdsGrammar.TopReads | lsub/ids.c:234-282 | a vendor or class line opens its block and is stored under its own key |
| IdsGrammar.NestedReads | lsub/ids.c:284-336 | a device line is stored under the vendor, a subclass line under the class, of the block it stands in |
| IdsGrammar.FirstLine | lsub/ids.c:376-388 | a line that fits the buffer is read whole, with or without a line feed behind it, cut at a carriage return and trimmed |
| IdsGrammar.FileReads | lsub/ids.c:406-459 | a file in the documented grammar, its lines ending in LF or CR LF and the last one possibly in neither, is read exactly when each entry is insertable, and then adds what its items mean under their latest block, across comments and blanks |
| IdsRoundTrip.RenderSpells | ub.ids:4-8 | every rendered vendor, device, class or subclass line spells its item |
| IdsRoundTrip.BlockedByZero | lsub/ids.c:188-191 | in the documented grammar an entry is blocked exactly when it is a class entry in the bucket of class 00, subclass 00 and that was stored before |
| IdsRoundTrip.InsertableIff | lsub/ids.c:178-206 | a database is insertable exactly when no class entry after class 00, subclass 00 shares its bucket |
| IdsRoundTrip.IdentityDecides | lsub/ids.c:26-26 | two items have one key exactly when kind, block and id agree, code ff standing for the class |
| IdsRoundTrip.RoundTrip | lsub/ids.c:406-459 | a database with distinct keys, written with comments and blank lines anywhere and any of these line ends, and read back: accepted exactly when nothing collides late with class 00, subclass 00, and then each entry is found and no absent key is |
| IdsRoundTrip.WriteThenLookUp | lsub/ids.c:79-459 | the same for the reader and the table themselves: a new table filled from the text gives every name back, and nothing for absent ids |
| IdsRoundTrip.RefusedFile | lsub/ids.c:188-191 | a file of two classes with one subclass each, no id repeated, is refused |
| Bits.AndMasks | lsub/lsub.h:324-336 | an And with k ones is the remainder modulo 2^k |
| Bits.OrAdds | lsub/lsub.h:345-349 | an Or of bits above the collected ones is their sum |
| Bits.ToChunkBits | lsub/lsub.h:322-363 | for every buffer and range of at most 64 bits the loop gives the little-endian number divided by 2^start, modulo 2^width |
| Bits.BitIsChunk | lsub/lsub.h:312-320 | the one-bit extractor is the range of width one |
| Bits.AdjacentChunks | lsub/lsub.h:322-363 | adjacent ranges concatenate |
| Bits.LowBytes | lsub/lsub.h:365-378 | the 16, 32 and 64-bit readers give the little-endian number of the first 2, 4 and 8 bytes |
| Bits.LEOfBytes | setub/setub.c:258-259 | a number stored as little-endian bytes reads back |
| Bits.BytesOfLE | lsub/lsub.h:375-378 | bytes are those of the number they hold |
| Guid.CheckFormat | setub/setub.c:352-380 | a text passes exactly when it has 37 characters with dashes at the five places and nowhere else |
| Guid.AcceptedIff | setub/setub.c:392-397 | a dashed text is taken exactly when its first five fields are whole numbers, with blanks, a plus sign or 0x allowed in front, and the sixth begins with one; then these numbers are read and none is cut |
| Guid.Parse | setub/setub.c:382-412 | parsing gives the masked fields of a dashed and readable text and fails on any other |
| Guid.Store | setub/setub.c:253-270 | the sixteen bytes are the low then the high half of the union |
| Guid.StoreBoth | setub/setub.c:272-290 | instance and device GUID each land in their own place |
| Guid.UnpackPacked | include/ubutils.h:202-218 | fields packed by one tool are unpacked by the other unchanged |
| Guid.PackUnpacked | lsub/cfg0/basic.c:120-127 | unpacked fields fit their widths and pack into the same sixteen bytes |
| Guid.PackedIs | include/ubutils.h:202-218 | the sixteen bytes are one little-endian number: sequence number, then at bits 64, 88, 92, 96 and 112 reserved, type, version, device and vendor |
| Guid.UnpackedIs | lsub/cfg0/basic.c:120-127 | each field is taken from its own bits of that number |
| Guid.DisplayIs | lsub/cfg0/basic.c:120-130 | what is displayed, place by place: vendor from bytes 14 and 15, device from 12 and 13, version and type from the halves of 11, reserved from 8 to 10, sequence number from 0 to 7 |
| Guid.DisplayThenParse | lsub/cfg0/basic.c:105-133 | every displayed GUID is accepted and packs into the sixteen bytes it was displayed from |
| Guid.ParseThenDisplay | setub/setub.c:382-412 | every well-formed GUID text survives parsing, packing, unpacking and display, up to the case of its letters |
| RegisterOp.Split | setub/setub.c:170-177 | the in-place cuts at the last `=` and the last `.` before it leave three C strings |
| RegisterOp.Options.ParsePosition | setub/setub.c:82-104 | a position is accepted exactly when it is a number as the C library reads it and within the configuration space |
| RegisterOp.Options.ParseWidth | setub/setub.c:131-164 | a width is accepted exactly when it is one of the three letters and divides the position |
| RegisterOp.LetterIff | setub/setub.c:143-156 | B, W and L in either case, and nothing else, stand for one, two and four bytes |
| RegisterOp.Options.ParseValue | setub/setub.c:106-129 | a value is accepted exactly when it is a number as the C library reads it and fits the width |
| RegisterOp.Options.ParseOp | setub/setub.c:166-195 | the parser accepts and fills in what the text means, or fails |
| RegisterOp.AcceptedIsSound | setub/setub.c:82-195 | every accepted operation is aligned, its value below 256^width, and all its bytes inside the configuration space |
| RegisterOp.AcceptedIff | setub/setub.c:166-195 | the texts accepted as an operation are exactly a number, a full stop, a width letter and, for a write, an equals sign and a number that say it, when it is sound |
| RegisterOp.ShowParses | setub/setub.c:166-195 | an operation written out, its letter in either case and its numbers in any form without a minus sign, parses back to itself exactly when it is sound |
| RegisterOp.Documented | setub.man:71-75 | the two examples of the manual page are read as it says |
| RegisterOp.NegativePosition | lib/common.c:67-77 | a position behind a minus sign counts down from 2^64, so it is accepted exactly when that is in range |
| ReadError.ShowReadError | lib/sysfs.c:492-534 | the nested loops report the maximal runs of failing positions, broken into lines |
| ReadError.RunsAreFailures | lib/sysfs.c:508-523 | the runs ascend, are apart by more than one address, and cover exactly the failing addresses |
| ReadError.LinesAreFull | lib/sysfs.c:524-532 | every line but the last carries eight or nine addresses, and none is empty |
| ReadError.ReportIsExact | lib/sysfs.c:492-534 | the report is empty exactly when nothing failed; the runs read off it cover exactly the failing addresses |
| ReadError.ReportShape | lib/sysfs.c:499-533 | a report is a heading, lines that are full but for the last, and an empty line; two addresses are shown exactly for runs of several |
| BusInstances.Access.Add | lib/common.c:423-445 | the instance is appended, and the tail stays the last node |
| BusInstances.Access.Walk | lib/common.c:437-442 | following the chain from its head meets the contents in order and ends |
| BusInstances.Access.ReadWindow | lib/sysfs.c:175-227 | at most the requested number of lines is read from the start; those that parse are appended in order |
| BusInstances.Access.ReadAll | lib/sysfs.c:262-275 | for any 32-bit count the windows append every parseable line up to the count, once, in kernel order |
| BusInstances.WindowsTile | lib/sysfs.c:262-275 | two windows side by side read what one wide window reads |
| BusInstances.ParseableCons | lib/sysfs.c:213-224 | a line that parses gives its instance once and in its place, any other gives nothing |
| BusInstances.NoWrap | lib/sysfs.c:265-270 | no window start leaves 32 bits, and windows end where the next one starts |
| RouteMap.WordsCoverPortsIff | lsub/lsub.h:158 | the words of a row are the ports divided by 32, rounded up, exactly when there is a port; without one the subtraction wraps |
| RouteMap.EntryIsExact | lsub/lsub.h:159-160 | no 32-bit step wraps for an entry below a 16-bit count |
| RouteMap.RowsTile | lsub/lsub.h:157-160 | the default row and the entries follow each other without gap or overlap |
| RouteMap.RowsAreInside | lsub/ls-route-tbl.c:69-71 | every word of every row lies inside the configuration space and above the default row |
| RouteMap.SlicesAreDisjoint | lsub/lsub.h:36-70 | all slices are disjoint blocks of 1 KB below the route table |
| RouteMap.MapIs | lsub/lsub.h:36-70 | the slices and the route table begin where the map of the configuration space says |
| RouteTable.ReadWords | lsub/ls-route-tbl.c:23-38 | one block read fills the array with the little-endian words of the row, or fails as a whole |
| RouteTable.ShowDefault | lsub/ls-route-tbl.c:16-42 | a line per word of the default row, or the failure |
| RouteTable.ShowExact | lsub/ls-route-tbl.c:44-87 | a line per word of the entry's row when both support bits are set, silence when not, or the failure |
| RouteTable.ShowRouteTable | lsub/ls-route-tbl.c:89-133 | nothing for entity 0 or a missing entity, else the first failing check or both displays |
| RouteTable.WordsShownIff | lsub/ls-route-tbl.c:89-133 | the words shown are exactly those of the default row and of the row of the entry, when the table is supported and has the entry and the row's block is delivered |
| RouteTable.RowsApartIff | lsub/lsub.h:157-160 | every entry's row stands behind the default row exactly when there is a port, and then all rows lie inside the configuration space; without ports entry 31 is the default row |
| RouteTable.SwitchesAre | lsub/ls-route-tbl.c:54-111 | the table is supported by bit 4 of byte 0x28, the exact rows by the lowest bits of bytes 6 and 8 of the table |
| RouteTable.SizesAre | lsub/ls-route-tbl.c:113-121 | ports and entries are little-endian words in bytes 4 and 5 |
| RouteTable.OffsetsAscend | lsub/ls-route-tbl.c:38-41 | words are shown in ascending order, the default row first |
| RouteTable.MessagesIff | lsub/ls-route-tbl.c:89-133 | which failure is shown, and when |

## Left out

- File, `pread`, `ioctl`, option and process plumbing: direct_link lines, instance lines, the text of `ub.ids` and a configuration space stand in for it. A `direct_link` file that cannot be opened stops the printout and is not modelled.
- Allocation failures, the freeing of everything, and the null tests that guard against objects that the program never lacks (lsub/topo.c:125-128, 214-216, 226-229, 236-238).
- Reading entity attributes from sysfs, and the device list itself: an entity arrives with its numbers, its type and its class code.
- Printing.ShowTopo: requires parent chains short enough for the line buffer, because the program writes past the buffer otherwise and C says nothing of what follows; `Printing.FitsIff` says that this is exactly when the drawing fits, for all data.
- Growing.ReadLinks: the limits of `fgets` and `sscanf` on a line are not modelled; a line either gives its three numbers or is a syntax error.
- Guid.Parse: a prefix `0x` without a digit behind it fails, as section 7.21.6.2 of ISO/IEC 9899:2011 has it; a C library may take the zero instead, which could matter in the last field only.
- RegisterOp.Options.ParseWidth: for an empty width the program looks at the character after the terminator; that only chooses between two messages, and messages are not modelled.
- ReadError.ShowReadError: output is a list of printed items instead of characters, and addresses do not wrap at 64 bits.
- BusInstances.Access.ReadWindow: the kernel always serves the heading line that is skipped; failures of the file position and of writing the start index are not modelled.
- RouteTable.ShowRouteTable: output is a list of printed items. A read delivers a block or fails; the bytes whose status failed are delivered too, and their report is modelled by `ReadError` alone.
- IdTable.Table.Insert: entries are sized for eight-byte pointers, 24 bytes in front of the name.
- The lookup of a whole device name (`ub_lookup_name`, `format_name_pair`), which only pastes names together.
- The big-endian branch of `to_chunkbits` (lsub/lsub.h:350-360), which the target layout does not compile.
- The register display of `lsub/port`, `lsub/cfg0` and `lsub/cfg1`, slice selection and the capability checks: single branches over the bit extractor.
- Methods such as `Offer`, `GrowOne`, `PayTurn`, `ShowOpened` and `ParseClass` are parts of one function of the program, split off to keep each proof small.

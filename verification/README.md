# GaoCloud: DNS messages, domain trees, routing and small algorithms

A Dafny model of the parts of the repository that hold the most state and branching, with
proofs about all inputs or all runs:

- **DNS names and messages** (`g53`). Names as octets with an offset table; the wire decoder with
  its back pointers; the text parser and printer; the renderer with its table of suffix positions;
  record data field by field; whole messages there and back. Modules `Octets`, `Names`, `NameWire`,
  `NameText`, `NameGrammar`, `NameOrder`, `NameOps`, `Compression`, `Pointing`, `NameClash`, `Render`,
  `Rdata`, `RecordLayouts`, `TypeBitmap`, `Messages`, `MessageCrash`, `MessageRecords`,
  `MessagePointers`, `MessageIO`.
- **The domain tree** (`g53/domaintree`, wrapped by `cement/domaintree`). Red-black trees whose
  nodes hold further red-black trees, as linked nodes on the heap: rotations, both rebalancing
  loops, exchange and removal, fission, search, traversal, and the map that it all amounts to.
  Modules `Trees`, `Rotations`, `RedBlack`, `InsertBalance`, `RemoveBalance`, `Unlinking`, `Zones`,
  `ZoneContents`, `TreeSearch`, `TreeInsert`, `RootRun`, `TreeMap`, `TreeRemove`, `TreeLookup`, `TreeWalk`.
- **The HTTP router** (`cement/httprouter`): the prefix tree with its wildcards, and the path
  cleaner. Modules `Slashes`, `Router`, `RouteConflicts`,
  `CleanPath`, `CleanRules`.
- **The bit tree** (`cement/netradix`) and **the call group** (`cement/singleflight`). Modules
  `NetBits`, `NetRadix`, `SingleFlight`. `Options` holds the optional value that several modules use.

Code that updates state in place is modelled by classes and methods with loops, each proved against
a function or predicate on values; pure code by functions. Linked nodes are described by a shape (an
immutable tree of the nodes with the way up to the root) and by `Conf`, which says that the fields of
the nodes form exactly that shape. Integers are unbounded; where the width of a word matters
(`% 0x1_0000`, `% 0x1_0000_0000`, a byte table entry) it is written out.

Where the code and its documentation differ, the model follows the code. The comment of `Name.Subtract`
asks the caller for a true suffix; the method model takes any name, as the code does.

## Findings

Properties that turned out to be false of the code, each with an input and with the condition under
which the property holds.

- **Compressed names.** `findOffset` compares all candidates with one cursor that is not rewound. Three
  names of one hash and one size, the label `\247\131\000\000`, then `\244\194\247\131`, then
  `\241\004\247\131`, written with compression in this order, make the third one read back as the first
  (`NameClash.ThirdReadsAsFirst`). A comparison succeeds exactly when the candidate is what the name reads
  from the cursor on, with zeros behind its end (`Compression.MatchExact`). In every run a name reads back
  up to case if and only if the search did not slip: a suffix was found although the newest candidate of
  its hash and size is a different name (`Compression.EveryNameReadsBack`). That never happens when names
  hold no zero octet, or when no two different names share hash and size (`Messages.RoundTrip`).
- **Text parser.** A label that a plain character starts when 254 octets are there misses the length
  limit: the text of 127 labels `a.` and one more `a` becomes a name of 257 octets, and with one more
  character the parser panics (`NameText.LongTextTaken`). `NameText.ParseSound` gives the exact condition
  on the text.
- **Parsing a message.** `sectionFromWire` takes the first piece of data of a record that may have none,
  when it joins two records and again when it sets a TSIG record aside. A message of 34 octets with two bare
  records makes it panic (`MessageCrash.PanickingMessage`), and so does one of 23 octets with one bare TSIG
  record (`MessageCrash.PanickingTsig`); `MessageCrash.MessageCrashes` says exactly when it panics.
- **Records without data.** A record without data is dropped when the next one has its name and type: a
  message of 38 octets with two answers comes out with one (`MessageRecords.BareDisplaced`). A section has as
  many records as were read if and only if there is no such pair; no data is ever lost, and the last
  additional record alone decides about EDNS and TSIG (`MessageRecords.NothingLost`).
- **`insertRoot`.** Above a top node that is not the root name it leaves links that no tree has
  (`TreeInsert.RootBreaks`); two greater names inserted next are out of reach of every search
  (`RootRun.RootRunLoses`). `TreeInsert.Insert`, `TreeInsert.InsertRoot` and `TreeMap.InsertValue` leave a
  tree unless the root name goes above another top, which is the exact condition.
- **Router.** A first pattern with more than 255 wildcards is registered without a panic, but from the
  256th on its wildcards are plain text. All paths that fill a first pattern are found with their values if
  and only if it has at most 255 wildcards (`Router.FirstRouteFound`); `Router.ManyFound` has the pattern
  `/:a` repeated and the path `/b` repeated.
- **`CleanPath`.** Of the four rules in its comment, those about double slashes, `.` and `..` hold for a path
  if and only if it does not come down to one octet and a slash: `a//` becomes `/a/` and `a/` becomes `/a`
  (`CleanRules.DoubleSlash`, `CleanRules.CurrentDirectory`, `CleanRules.ParentDirectory`). The rule about `..`
  at the root always holds (`CleanRules.AboveRoot`).
- **Call group.** The in-flight count is the number of calls in the map in every run if and only if the
  limit is neither 0 nor the largest word (`SingleFlight.CountIsSize`): with 0 it is never lowered, and
  under the largest limit the comparison wraps around and lets one call too many in.
- **TSIG data.** The sizes inside TSIG data are not held against its announced length, whose count wraps
  around: data that announces 11 octets can take 65536 more (`Rdata.TsigOvertakes`). Data of every other
  type takes exactly what it announces, and TSIG data does if and only if its fields together stay below
  65536 octets (`Rdata.RdataConsumesAll`).
- **Type lists.** For an empty list of types `encodeNSEC3Bytes` slices beyond its empty buffer and panics.
  Decoding the encoding gives a list back if and only if it is not empty and rises strictly
  (`TypeBitmap.TypesRoundTrip`).

## Model

| member | source | states |
|---|---|---|
| Octets.Uint16ReadsBack | g53/util/buffer.go:51-61 | the two octets of a 16-bit word give the word back |
| Octets.Uint32ReadsBack | g53/util/buffer.go:63-75 | the four octets of a 32-bit word give the word back |
| Octets.LowerTells | g53/name.go:49-82 | two octets are equal up to case if and only if they are equal or the two forms of one letter |
| Names.WireInjective | g53/name.go:89-99 | two label lists with the same encoding are the same |
| Names.LabelsOfEncoding | g53/name.go:89-99 | the name made from a label list that fits is well formed and has those labels |
| Names.ExactTable | g53/name.go:89-99 | in a well-formed name entry i of the offset table is the position of label i, and each label ends where the next entry points |
| Names.SameFoldSameHash | g53/name.go:686-699 | octets equal up to case have equal hashes |
| Names.HashRaw | g53/name.go:686-699 | the loop computes the mix of all octets in order, on 32-bit words, folded to lower case unless case matters |
| Names.FoldedHash | g53/name.go:686-699 | the folding hash is the exact hash of the octets in lower case |
| NameWire.InputBuffer.SetPosition | g53/util/buffer.go:33-39 | moves the cursor unless it would leave the data |
| NameWire.InputBuffer.ReadUint16 | g53/util/buffer.go:51-61 | reads a big-endian word and advances by two, or fails and stays |
| NameWire.InputBuffer.ReadUint32 | g53/util/buffer.go:63-75 | reads a big-endian word and advances by four, or fails and stays |
| NameWire.InputBuffer.ReadBytes | g53/util/buffer.go:77-86 | reads exactly the octets asked for and advances past them, or fails and stays |
| NameWire.DecodeFits | g53/name.go:286-366 | a decoded name takes at most 255 octets, and the cursor ends behind what was read first |
| NameWire.NameFromWire | g53/name.go:286-366 | the loop ends on every octet string and equals the recursive decoder that follows pointers: same errors, same octets and exact offset table, cursor just past the first pointer or the final zero |
| NameText.TextRoundTrip | g53/name.go:116-266 | parsing the printed form of any name, with or without the final dot, gives the same octets and offsets, in lower case if asked |
| NameText.ParseSound | g53/name.go:116-255 | the parser never panics and yields only well-formed names if and only if the text has no place where, behind an unescaped dot that ends a name of full length, a character other than dot and backslash follows |
| NameText.OverrunsTold | g53/name.go:116-255 | that condition on the text is the same as the state machine getting past its length limit |
| NameText.OverrunHappens | g53/name.go:236-253 | behind labels of 254 octets a plain character gives a name of 257 octets, and more text a panic |
| NameText.LongTextTaken | g53/name.go:236-253 | the same at the text of 127 one-octet labels |
| NameText.StringParse | g53/name.go:116-255 | the loop equals the state machine run over the text |
| NameText.RootText | g53/name.go:131-148 | a text is parsed to the root name if and only if it is a dot or an at sign |
| NameGrammar.GrammarRead | g53/name.go:116-255 | a text of labels, spelled plainly or escaped and parted by dots, that fit a name is parsed to them |
| NameGrammar.GrammarTells | g53/name.go:116-255 | every text that is parsed to a name, but for the two of the root, is such a text of exactly these labels |
| NameText.LabelString | g53/name.go:376-417 | the inner printing loop writes the text of every octet of a label |
| NameText.OctetTextTells | g53/name.go:399-415 | an octet is printed as itself if and only if it is visible and means nothing else, behind a backslash if it does, else as three digits |
| NameText.NameString | g53/name.go:376-417 | the printing loop writes the labels separated by dots, with the final dot unless it is left out |
| NameOrder.NameTrichotomy | g53/name.go:427-482 | of two label lists exactly one holds: the first is less, the second is less, they are equal up to case |
| NameOrder.NameLessTrans | g53/name.go:427-482 | the order on label lists, read from the right, is transitive |
| NameOrder.NameLessIrreflexive | g53/name.go:427-482 | no list is less than one equal to it up to case |
| NameOrder.LabelOrder | g53/name.go:440-465 | of two labels the first octets that differ up to case decide, and the end comes before every octet |
| NameOrder.NameOrderTold | g53/name.go:427-482 | of two names the last labels decide, and where they agree the labels before them |
| NameOrder.Compare | g53/name.go:427-482 | the sign of the order is that of the canonical order of section 6.1 of RFC 4034; the count is the longest common label suffix; sub- and superdomain mean proper suffix, equal means equal up to case |
| NameOrder.Equals | g53/name.go:491-514 | true if and only if the labels agree up to case |
| NameOrder.EqualNamesAgree | g53/name.go:427-514 | the relation is equal if and only if `Equals` holds, and such names have equal hashes |
| NameOps.Split | g53/name.go:588-618 | made exactly for a range of the labels, which it then holds with exact octets and table; refused outside, with a panic instead if the end of the range wraps around at 64 bits |
| NameOps.Subtract | g53/name.go:564-566 | the labels in front of as many as the suffix has; refused when none would be left |
| NameOps.Parent | g53/name.go:620-622 | the labels from the level on; refused above the root |
| NameOps.StripLeft | g53/name.go:644-662 | the labels without the first ones; refused when there are not enough |
| NameOps.StripRight | g53/name.go:664-680 | the labels without the last ones; refused when there are not enough |
| NameOps.Reverse | g53/name.go:568-586 | the labels in the opposite order, with exact octets and table |
| NameOps.Concat | g53/name.go:520-560 | the labels of all names in order; refused exactly when they do not fit a name; a panic exactly without any further name |
| NameOps.SubtractThenConcat | g53/name.go:520-566 | subtracting a proper suffix, in any case, and joining it again restores the name up to case, and exactly if and only if the suffix was written as in the name |
| NameOps.ConcatBothWays | g53/name.go:520-560 | joining is associative, also in what is refused, and equals joining all at once |
| NameOps.ReverseTwice | g53/name.go:568-586 | reversing twice gives the same octets and offsets |
| NameOps.StripLeftOrParent | g53/name.go:620-662 | `StripLeft` and `Parent` agree for every number of labels |
| NameOps.StripReversed | g53/name.go:568-680 | stripping on the left and reversing is reversing and stripping on the right |
| NameOps.SplitThenConcat | g53/name.go:520-618 | the two parts of a split, joined, are the name |
| Compression.MatchExact | g53/msgrender.go:20-52 | a comparison from any cursor succeeds exactly when the candidate is what the name reads from there, zeros behind its end included |
| Compression.MatchTells | g53/msgrender.go:20-52 | from the start of the name a match is equality up to case, from any later octet on it is never that |
| Compression.MatchSound | g53/msgrender.go:20-52 | a match is a true one, wherever the cursor starts, if the candidate has no zero octet |
| Compression.FindTells | g53/msgrender.go:100-120 | what a bucket search finds is the name exactly when the newest candidate of its hash and size is |
| Compression.WriteNameKeeps | g53/msgrender.go:137-192 | one write keeps every entry of the table true and every earlier name untouched, and leaves a name of the same size that is the one asked for if names are safe |
| Compression.ReadBackTells | g53/msgrender.go:137-192 | what one write leaves reads back as the name, up to case, if and only if the search did not slip |
| Compression.PatchKeeps | g53/msgrender.go:218-220 | overwriting two octets that belong to no name keeps the table true |
| Compression.RunInvariant | g53/msgrender.go:100-192 | in every run of writes all entries of the table lead to the names they stand for |
| Compression.NameSurvives | g53/msgrender.go:137-192 | what decodes at a position keeps decoding there through all later writes |
| Compression.EveryNameReadsBack | g53/msgrender.go:137-192 | in every run each name reads back from its offset, taking exactly its encoding, after all later writes: as asked if not compressed, and up to case if and only if the search for it did not slip, which safe names never do |
| Pointing.SuffixPointed | g53/msgrender.go:137-192 | in every run of names from a pool, a compressed name of which a suffix stands spelled out within reach takes no more than the labels before it and two octets |
| Pointing.SuffixesListed | g53/msgrender.go:176-191 | a write enters every suffix that it spelled out within reach, and keeps what was entered before |
| Pointing.WriteBound | g53/msgrender.go:161-173 | no write is longer than the name, and one without compression is the name octet by octet |
| NameClash.ThirdReadsAsFirst | g53/msgrender.go:100-120 | without that condition a name can come back as another: three names of one hash and size |
| Render.NextPos | g53/msgrender.go:54-62 | follows pointers to the next label of a stored name |
| Render.Compare | g53/msgrender.go:20-52 | comparing in the buffer equals the comparison on values, and moves the cursor of the name the same way |
| Render.MsgRender.FindOffset | g53/msgrender.go:100-120 | searches the bucket from its newest entry and returns the position that the search on values finds |
| Render.MsgRender.WriteName | g53/msgrender.go:137-192 | buffer and table after the method are those of the write on values |
| Render.MsgRender.Clear | g53/msgrender.go:127-135 | the renderer is as a fresh one |
| Render.MsgRender.WriteUint16At | g53/msgrender.go:218-220 | patches the two octets in place, or fails and changes nothing |
| TypeBitmap.EncodeTypes | g53/rdata_nsec3.go:126-145 | every write is inside the buffer, for any list; the last slice panics exactly for the empty list; an increasing list gives its bitmap |
| TypeBitmap.DecodeTypes | g53/rdata_nsec3.go:213-255 | the loop equals the decoder window by window, with the same rejections |
| TypeBitmap.DecodeRising | g53/rdata_nsec3.go:213-255 | a decoded list rises strictly |
| TypeBitmap.DecodeBound | g53/rdata_nsec3.go:213-255 | an accepted bitmap has at most 34 octets for each window that is left |
| TypeBitmap.TypesRoundTrip | g53/rdata_nsec3.go:126-255 | decoding the encoding gives the list back if and only if it is not empty and rises strictly; sections 4.1.2 of RFC 4034 and 3.2.1 of RFC 5155 |
| TypeBitmap.DecodeAppend | g53/rdata_nsec3.go:213-255 | a further window appends its types |
| TypeBitmap.BlockMember | g53/rdata_nsec3.go:213-255 | a block holds exactly the types of its window whose bits are set, the highest bit of an octet for its lowest type |
| Rdata.FieldAccounts | g53/rdatafield.go:53-174 | a field that is read moves the cursor by what it takes from the budget, exactly except for the sized fields of NSEC3 and TSIG, up to turns of a word for those |
| Rdata.FieldsAccount | g53/rdata_soa.go:65-113 | the same for all fields of a record |
| Rdata.RdataConsumesAll | g53/rdata.go:16-68 | accepted data takes exactly the announced octets for every type but TSIG; TSIG data takes them up to turns of a word, and exactly them if and only if its fields together stay below one |
| Rdata.TsigOvertakes | g53/tsig.go:134-204 | TSIG data that announces 11 octets and takes 65536 more |
| RecordLayouts.AddressLayout | g53/rdata_a.go:30-40 | address data is read if and only if it has 4 octets, or 16, and they are the address |
| RecordLayouts.NameLayout | g53/rdata_ns.go:29-39 | data of NS, CNAME, PTR and DNAME records is read if and only if one name fills it |
| RecordLayouts.ExchangeLayout | g53/rdata_mx.go:43-61 | MX data is read if and only if a name fills it behind two octets, which are the preference |
| RecordLayouts.ServiceLayout | g53/rdata_srv.go:62-88 | priority, weight and port stand in front of the target |
| RecordLayouts.AuthorityLayout | g53/rdata_soa.go:65-113 | the five words stand behind the two names, in order |
| RecordLayouts.DigestLayout | g53/rdata_ds.go:67-98 | key tag, algorithm and digest type stand in front of the digest |
| Rdata.FieldReads | g53/rdatafield.go:53-217 | a rendered field is read back from any later state of the message, names up to case |
| Rdata.FieldsRead | g53/rdatafield.go:53-217 | the fields of a record are read back under exactly their own length |
| Messages.HeaderBack | g53/header.go:62-92 | a written header reads back, flags, opcode and response code cut to their bits |
| Messages.FlagsAre | g53/header.go:24-29 | the flags are the word without opcode, reserved bit and response code |
| Messages.JoinSection | g53/message.go:122-151 | records read one by one are joined into the RRsets they were written for, if neighbours differ in name or type |
| Messages.SectionsRead | g53/message.go:122-166 | the sections of a rendered message are read back in turn |
| Messages.RecountRight | g53/message.go:21-32 | recomputed counts are right if and only if no section has more records than a word can count; EDNS adds its options to the last |
| Messages.RoundTrip | g53/message.go:95-187 | parsing what a fresh renderer wrote for a message gives it back up to the case of names, although all sections share one compression table |
| MessageCrash.SectionCrash | g53/message.go:122-151 | reading a section panics if and only if some record without data follows one of the same name and type |
| MessageCrash.MessageCrashes | g53/message.go:95-166 | parsing panics if and only if header and question can be read and some section, with all before it readable, holds such a pair, or the additional section ends in a TSIG record without data |
| MessageCrash.PanickingMessage | g53/message.go:140-151 | builds such a message of 34 octets |
| MessageCrash.PanickingTsig | g53/tsig.go:215-217 | builds a message of 23 octets with one bare TSIG record that panics |
| MessageRecords.NothingLost | g53/message.go:95-166 | a parsed message holds header, question and, section by section, all data read, in RRsets of which no neighbours belong together; the records themselves, with owner, class and time to live of their leaders, if and only if none is displaced; EDNS exactly when the last additional record has type 41, TSIG for 250 |
| MessageRecords.OptSetAside | g53/message.go:155-156 | at a message of 23 octets: its OPT record is set aside as EDNS |
| MessageRecords.BareDisplaced | g53/message.go:140-151 | at a message of 38 octets: a record without data is lost |
| MessagePointers.AnswerPoints | g53/message.go:168-187 | in every message with names from a pool, an answer with the name of the question begins with a pointer |
| MessagePointers.OwnerPointed | g53/rrset.go:470-489 | a record whose owner is in the table begins with a pointer |
| MessagePointers.FieldPointed | g53/rdatafield.go:176-181 | a compressed name in record data that is in the table takes two octets |
| MessagePointers.SpelledOut | g53/rdatafield.go:182-184 | a name that must not be compressed is spelled out |
| MessageIO.FieldFromWire | g53/rdatafield.go:53-174 | the cursor method reads what the function on values reads, for every coding, and ends where it says |
| MessageIO.RdataFromWire | g53/rdata.go:16-68 | reads the announced fields and rejects leftovers, as the function on values |
| MessageIO.RRsetFromWire | g53/rrset.go:430-468 | reads one record, with the same rejections |
| MessageIO.IsSameRRset | g53/rrset.go:533-535 | true if and only if type and name agree, names up to case |
| MessageIO.SectionFromWire | g53/message.go:122-151 | the loop reads and joins the records of a section, the panic included |
| MessageIO.MessageFromWire | g53/message.go:86-166 | reads header, question and sections, setting EDNS and TSIG records aside, panics included |
| MessageIO.RendField | g53/rdatafield.go:176-217 | writes what the function on values writes, for every coding |
| MessageIO.RendRRset | g53/rrset.go:470-489 | writes one record for each piece of data, each length patched in afterwards |
| MessageIO.RendMessageInto | g53/message.go:168-187 | writes header, question and sections into the renderer |
| MessageIO.SectionRRCount | g53/message.go:21-32 | counts records, an RRset without data as one |
| MessageIO.RecalculateSectionRRCount | g53/message.go:189-203 | sets all counts from the sections and the options of EDNS, each kept to a word |
| MessageIO.RenderAndParse | g53/message.go:86-187 | the methods together: render, parse, and get the message back up to the case of names |
| Rotations.TurnLeft | g53/domaintree/domaintree.go:282-302 | the links after a left rotation form the rotated tree at the same place, in any level |
| Rotations.TurnRight | g53/domaintree/domaintree.go:304-323 | the same for a right rotation |
| InsertBalance.InsertRebalance | g53/domaintree/domaintree.go:241-280 | after a red node was hung in, the loop ends with a balanced level: no red node with a red child, equal black heights, same entries in the same order, all links right |
| RemoveBalance.RemoveRebalance | g53/domaintree/domaintree.go:442-531 | from a level that is one black node short at one place, the loop ends with a balanced level of the same entries; neither panic can be reached |
| Unlinking.ConnectChild | g53/domaintree/domaintree.go:422-440 | exactly the pointer that led to the old child leads to the new one |
| Unlinking.Exchange | g53/domaintree/domaintree.go:388-420 | the two nodes have changed places, colours included, and no other link is different |
| Unlinking.Unlink | g53/domaintree/domaintree.go:346-375 | a node without a level below it is taken out, and the level is balanced again with all other entries in order |
| Unlinking.RightMost | g53/domaintree/domaintree.go:346-350 | the descent ends at the last node of the left subtree |
| TreeSearch.FindZone | g53/domaintree/domaintree.go:50-98 | on a well-formed tree the descent finds the node of the name, else the deepest node that encloses it, else nothing |
| TreeSearch.SearchExt | g53/domaintree/domaintree.go:50-98 | the loop on linked nodes finds what that descent finds; its chain spells the way and never outgrows its capacity |
| TreeInsert.NodeFission | g53/domaintree/domaintree.go:228-239 | splitting a node at a proper suffix keeps the tree well formed and everything stored |
| TreeInsert.Insert | g53/domaintree/domaintree.go:140-208 | the tree stays well formed at every level, nothing stored changes, and the node returned has the full name, unless the root name goes above another top; then exactly the links that `insertRoot` leaves |
| TreeInsert.InsertRoot | g53/domaintree/domaintree.go:210-226 | well formed afterwards if the tree was empty or had the root name at its top; otherwise exactly the links that `insertRoot` leaves |
| TreeInsert.RootBreaks | g53/domaintree/domaintree.go:210-226 | those links are not a well-formed tree |
| RootRun.Turn | g53/domaintree/domaintree.go:151-189 | one turn of the insertion loop: down from the root name, to the right of a node that the name follows |
| RootRun.Rebalance | g53/domaintree/domaintree.go:241-280 | with the root node above the level, the rotation turns the level and leaves the pointer to it as it was |
| RootRun.RootRunLoses | g53/domaintree/domaintree.go:140-302 | a tree of one name, the root name above it, then two names that follow it: whatever is asked for, a search from the root node meets only the old top |
| TreeMap.SetData | g53/domaintree/node.go:108-110 | changes the data of that one name and of no other |
| TreeMap.InsertValue | cement/domaintree/domaintree.go:110-125 | the map from full names to values gets exactly this entry, unless the root name goes above another top; then the links are those of no tree |
| TreeRemove.Remove | g53/domaintree/domaintree.go:325-386 | a name that is found loses exactly its entry of the map, otherwise nothing changes; the tree stays well formed, also where empty ancestors go with it |
| TreeLookup.GetAbsoluteName | g53/domaintree/nodechain.go:27-45 | a chain of nodes spells the full name of its last node, and has room in the fixed array |
| TreeLookup.Search | cement/domaintree/domaintree.go:46-76 | answers as the map says: the value of the name, else name and value of the longest enclosing entry, else nothing |
| TreeLookup.Delete | cement/domaintree/domaintree.go:127-132 | succeeds if and only if the name is in the map, and removes exactly it |
| TreeWalk.Successor | g53/domaintree/node.go:87-106 | the next node of the level, or the end of the level |
| TreeWalk.NextNode | g53/domaintree/domaintree.go:100-138 | the next node in canonical order over all levels, or none after the last; the chain to it never outgrows its capacity |
| TreeWalk.Walk | g53/domaintree/domaintree.go:100-138 | from the top node on every node of the tree is visited exactly once, in strictly increasing canonical order of full names; section 6.1 of RFC 4034 |
| Router.WalkFormed | cement/httprouter/tree.go:80-205 | registering keeps the shape: index bytes aligned with different first bytes of the children, wildcards alone under their node |
| Router.AddRouteUpdates | cement/httprouter/tree.go:80-205 | a registration gives its pattern the handle and leaves the handle of every other pattern |
| Router.WalkSound | cement/httprouter/tree.go:89-191 | `maxParams` at a wildcard bounds the wildcards on every route below it, and children stay in order of priority |
| Router.RunHas | cement/httprouter/tree.go:80-319 | after any registrations without a panic the tree holds for each pattern the handle registered last |
| Router.RouteFinds | cement/httprouter/tree.go:326-447 | a path that fills a registered pattern with values free of slashes is found, with its latest handle and those values |
| Router.RouteFound | cement/httprouter/tree.go:326-447 | a handle that is found is the latest of a pattern which the returned values fill to the path |
| Router.FirstRouteFound | cement/httprouter/tree.go:20-205 | all paths that fill a first route are found with their values if and only if it has at most 255 wildcards |
| RouteConflicts.RegisterFails | cement/httprouter/tree.go:80-319 | a run of registrations panics if and only if some pattern is malformed, or two of them, equal up to some place, go on there with different segments of which one begins with a wildcard |
| RouteConflicts.WalkFails | cement/httprouter/tree.go:80-205 | one walk panics if and only if the path is malformed or conflicts with a stored pattern |
| RouteConflicts.InsertFails | cement/httprouter/tree.go:207-319 | `insertChild` panics if and only if the path is malformed or puts a wildcard beside children |
| Router.ManyFound | cement/httprouter/tree.go:20-31 | the pattern of k parts `/:a`, registered first, is found by the path of k parts `/b` if and only if k is at most 255 |
| Router.CountParams | cement/httprouter/tree.go:20-31 | the number of wildcard octets, stopping at 255 |
| Router.IncrementChildPrio | cement/httprouter/tree.go:55-76 | the child moves up past those of lower priority, its index byte with it |
| Router.GetValue | cement/httprouter/tree.go:326-447 | the loop equals the lookup on values, and the parameters never outgrow the capacity of their slice |
| CleanPath.Clean | cement/httprouter/path.go:21-123 | the loop with its lazily made buffer returns the path split at slashes, resolved and joined, with the trailing slash of the code's rule; every access is in range |
| CleanPath.BufApp | cement/httprouter/path.go:112-123 | appends one octet to the result, making the buffer only when it first differs from the path |
| CleanPath.CopyElement | cement/httprouter/path.go:83-97 | appends one element, after a slash unless the result is still the root |
| CleanPath.Backtrack | cement/httprouter/path.go:64-81 | takes exactly the last element off the result |
| CleanPath.CleanFixes | cement/httprouter/path.go:8-20 | the paths that stay as they are are exactly the rooted ones of real elements, with or without a final slash |
| CleanPath.Idempotent | cement/httprouter/path.go:8-20 | cleaning twice is cleaning once |
| CleanRules.DoubleSlash | cement/httprouter/path.go:12 | two slashes are one, exactly for paths that do not come down to one octet and a slash |
| CleanRules.CurrentDirectory | cement/httprouter/path.go:13 | the element `.` can be left out, for exactly those paths |
| CleanRules.ParentDirectory | cement/httprouter/path.go:14-15 | a real element and the `..` behind it can be left out, for exactly those paths |
| CleanRules.AboveRoot | cement/httprouter/path.go:16-17 | `..` at the root can be left out of every path |
| NetRadix.RadixTree.Insert32 | cement/netradix/tree.go:129-166 | the linked nodes hold, for every prefix, the first value that any insertion of the run brought there; an insertion is refused if and only if an earlier one, with as many leading ones in its mask and a key that agrees in them, brought a value |
| NetRadix.RadixTree.Find32 | cement/netradix/tree.go:334-353 | the value of the inserted mask with the most leading ones, no more than those of the mask asked, under which the inserted key and the key asked have equal quotients |
| NetBits.SamePrefix | cement/netradix/tree.go:129-143 | as many bits are read as the mask has leading ones, and the first of them are those of another key and mask if and only if its quotient is the same |
| NetBits.OnesTold | cement/netradix/tree.go:129-143 | a mask has n leading ones if and only if it lies between the network masks of n and of one more |
| NetBits.NetPrefix | cement/netradix/tree.go:129-143 | under the network mask of n two keys have the same bits if and only if they are equal divided by the size of the network |
| NetRadix.NewTree | cement/netradix/tree.go:38-67 | a preallocated tree holds no value, and the filling loops end |
| NetRadix.FirstAfterNil | cement/netradix/tree.go:38-67 | insertions after preallocation leave what they would leave without it |
| NetRadix.LongestAfterNil | cement/netradix/tree.go:38-67 | every lookup after preallocation answers as without it |
| NetRadix.AnswersAfterNil | cement/netradix/tree.go:38-67 | the same on keys and masks |
| SingleFlight.StepKeeps | cement/singleflight/singleflight.go:31-61 | every step of every caller keeps the invariant of map, records, owners and count |
| SingleFlight.OneRunning | cement/singleflight/singleflight.go:31-61 | in every reachable state at most one function is running for a key |
| SingleFlight.ReturnIsResult | cement/singleflight/singleflight.go:31-61 | a caller is refused only by a limit, and otherwise returns the result of its finished record |
| SingleFlight.StoreReturned | cement/singleflight/singleflight.go:50-60 | what a function hands back is what everybody returns who holds its record, at any later time |
| SingleFlight.ReturnWasStored | cement/singleflight/singleflight.go:50-60 | a returned result was stored by exactly one step, of the caller that ran the function of the record |
| SingleFlight.EnterRecord | cement/singleflight/singleflight.go:32-48 | the record a caller takes on is that of its key in the map, and it is refused exactly when the limit is reached |
| SingleFlight.RecordKept | cement/singleflight/singleflight.go:31-61 | through the rest of any run a caller keeps its record, and a record its result |
| SingleFlight.CountWithin | cement/singleflight/singleflight.go:39-58 | under a limit from 1 to the largest word but one, the count is the size of the map and within the limit |
| SingleFlight.CountIsSize | cement/singleflight/singleflight.go:39-58 | the count is the size of the map in every run if and only if the limit is one of those |
| SingleFlight.CountAllMade | cement/singleflight/singleflight.go:53-58 | with no limit the count is the number of records ever made, on 32-bit words |
| SingleFlight.UnlimitedCount | cement/singleflight/singleflight.go:53-58 | with no limit one call that comes and goes leaves a count of one and an empty map |
| SingleFlight.LargestLimitCount | cement/singleflight/singleflight.go:39-48 | under the largest limit one more call than the limit gets in |
| SingleFlight.SomeoneMoves | cement/singleflight/singleflight.go:31-61 | while anybody is inside `Do`, somebody there can take a step |
| SingleFlight.StepsRunOut | cement/singleflight/singleflight.go:31-61 | each step but an entry brings its caller nearer to returning and moves no other |

## Left out

- NameOrder.Compare: the case-sensitive mode of `Compare` is not modelled.
- Messages.RoundTrip: messages without EDNS and TSIG records, with record data of a modelled type that is neither empty nor over 65535 octets, and with neighbouring RRsets that differ in name or type, since others are joined or set aside when read.
- RootRun.RootRunLoses: the loops of `Insert` and `insertRebalance` are unrolled, since their models require the links of a tree; the search is given by the nodes that it can meet.
- Router.AddRouteUpdates: `addRoute` and `insertChild` are modelled on immutable nodes, so the model does not capture that nodes are updated in place; routes with a catch-all and, beyond a first route, more than 255 wildcards are excluded, and priorities do not wrap at 32 bits.
- RouteConflicts.RegisterFails: for routes without a catch-all and with at most 255 wildcards, as all results on runs of registrations.
- Pointing.SuffixPointed: for names from a pool in which no two different ones share hash and size; without that a comparison that fails leaves the cursor where later ones fail too.
- Router.GetValue: trailing-slash recommendations are not returned.
- Rdata.FieldReads: TSIG data is read and not written, since `TSIG.Rend` writes a computed signature; NSEC3 salt and hash are octets whose length field is their length; their hexadecimal and base32 texts are not modelled.
- NetRadix.RadixTree.Insert32: nodes are allocated one by one, without the arena and the free list.
- SingleFlight.StepKeeps: a function that panics and so never stores a result is not modelled, and each critical section is one step.
- Text forms of records, `ToWire` paths, EDNS options, TSIG and RRSIG computations: library and cryptographic code, or copies of the rendering paths.
- `MsgRender.Trim`, truncation and the rendered-length limit.
- Node flags, search callbacks, `Clean`, `Clone`, `ForEach` and the locks of the domain tree wrappers.
- `Name.IsSubDomain` and the wildcard predicate.
- IPv6 keys, deletion and CIDR parsing of the bit tree.
- Case-insensitive lookup and HTTP dispatch of the router.
- Everything else in the repository: network, database, Kubernetes, logging and generated code, where what happens is decided by other systems and libraries.

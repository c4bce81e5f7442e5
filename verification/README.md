# Verified model of the mower's JSON engine, socket client, probe registry and mission protocol

This project models four parts of the mower repository in Dafny and proves what they promise.

* **The JSON engine** (`contrib/lvgl_kiosk/src/cjson/cJSON.c`). `Bytes`, `Escapes`, `StringCodec`, `Numbers`
  and `JsonValue` hold the vocabulary. `ParseSpec` says what the recursive-descent parser reads at an offset;
  `Parser` is the parser itself, a buffer object with an offset and a depth, proved against it. `WrittenStrings` and
  `Documents` say what it reads from JSON texts in any spelling and layout, `Accepted` that it accepts nothing else.
  `PrintText` says what is printed; `Printer` is the growing print buffer that writes it. `Grammar` is the grammar of
  RFC 8259, and `PrintGrammar` proves that every printed text is in it. `Widths` restates the printed text by
  positions, `RoundTrip` proves that parsing undoes printing, and `ParsedTrees` turns that into an equivalence.
  `Minify` is the in-place minifier and an automaton over its input, `MinifyKeeps` says byte by byte what is taken out,
  `MinifyTwice` when a second pass changes nothing; `MinifyText` relates the two print formats through the minifier,
  and `MinifyMeaning` follows the parser through an arbitrary accepted text and its minified form at once.
  `ChildList` holds the sibling lists of nodes on the heap; `Comparison` and `TreeOps` hold comparing and duplicating.
* **The stream framing** (`contrib/lvgl_kiosk/src/socket_client.c`). `Framing` defines the length-prefixed stream
  and what the extraction loop makes of a buffer; `SocketClient` is the client with its 8192-byte array, and
  `Reconnect` follows it through connecting, losing the connection and connecting again.
* **The probe registry** (`src/mower_rover/probe/registry.py`). `Dependencies` defines paths, cycles, orders and
  what a check comes to, without mentioning any order of execution; `Registry` is the depth-first sort, the
  expansion of a selection and the run.
* **The mission protocol** (`src/mower_rover/mavlink/mission.py` and `src/mower_rover/cli/zone_laptop.py`).
  `Vehicle` is the far side as a transition system: vehicle and channel. `Reading` says what reading and waiting make
  of a connection, `Protocol` what the transactions make of it, and `Schedules` what they come to when nothing is lost
  and when nothing happens any more. `Deeds` says what runs make of the vehicle's lists. `Connection` is the link,
  whose future is an arbitrary finite sequence of events; `Mission` is the ground station's code on it, and `Zone` is
  the upload of three lists.

`dafny verify dfyconfig.toml` verifies all of it.

## How to read it

A class with methods stands for source code that updates state in place; each such method is proved against a
function or predicate, and the lemmas beside it say what that function means. Where the source raises an
exception or returns NULL or false, the model returns an `Option`, a `bool` or an outcome datatype.

Assumptions that the results about missions rest on are predicates of their own. `Vehicle.Fresh`: no upload is open
or on its way, nothing is about to be cleared, and no acknowledgement of an earlier transaction is left over.
`Vehicle.Honest`: only this vehicle speaks. The rules of the vehicle and the channel are in `Vehicle.Step`: messages
to the vehicle arrive in order or are lost; messages to the ground are lost, delayed, reordered and, except
acknowledgements, repeated; an upload is accepted only when every item has been received, and then stored; a new
count, a clear or a request for the list ends an open upload. `Mission.UploadMission` also states what happens
without the first assumption: a left-over acknowledgement is believed.

The other results about missions need less or more than these two. What a clear guarantees rests on `Vehicle.Honest`
and `Vehicle.Bounded`: an announced count still on its way bounds the list it tells of, and no upload is announced
behind a request for a list. What a download or a verification tells of the stored list rests on `Vehicle.Honest` and
`Vehicle.Faithful`: no upload or clear is under way, and what was said about that list and is on its way is true of
it. The upload of a zone starts from `Zone.Idle`: `Vehicle.Fresh`, `Vehicle.Honest` and `Vehicle.NoLists`, that is,
nothing has been asked or said about the lists; `Bounded` and `Faithful` follow from it. Everything that is said about
messages, times and what the vehicle does to its lists in the course of a run holds without any of them.

## Where the code and its documentation differ

* Four hexadecimal digits that are not digits do not make an escape fail; it stands for U+0000
  (`Escapes.BadDigitsReadAsNul`). A parsed string is then not all that the text says: it is, exactly when the walk over
  the text meets no raw NUL and no \u escape with bad digits or 0000 (`ParseSpec.WholeStringIff`); otherwise it ends
  before the first of them (`ParseSpec.CutOffExample`).
* `cJSON_PrintPreallocated` needs two bytes beyond the text, not one for the terminator
  (`Printer.PrintPreallocated`).
* Minifying is not idempotent: taking out the blank between two slashes makes a comment (`MinifyTwice.GluedExample`).
  A second pass changes nothing exactly when the text, outside of strings and comments, has no slash that is separated
  by blanks and comments alone from a star or from another slash that begins no comment (`MinifyTwice.IdempotentIff`).
  So glued, the result can have white space that it does not itself show to be in a string; it is so exactly when a
  reading of the original that keeps account of both meets some (`MinifyKeeps.NoWhiteLeftIff`,
  `MinifyKeeps.WhiteLeftExample`).
  A text that ends inside a string right behind a backslash is copied beyond its terminator (`Minify.OpenIff`).
* A tree with a repeated key does not compare equal to its own copy unless the members of that name agree
  (`Comparison.AlikeItselfIff`).
* `_upload_zone_atomically` always reports that all missions were cleared. On a line that has gone dead nothing is
  cleared at all (`Zone.OnDeadLine`, `Zone.FenceSurvives`). No more than the home position is left exactly when each
  list was that short before, or was cut to that by a clear the vehicle took or an upload it accepted, and no longer
  list of its type was accepted after that (`Zone.EmptiedIff`, `Zone.UploadZoneAtomically`).

## Model

| member | source | states |
|---|---|---|
| Escapes.ParseHex4 | contrib/lvgl_kiosk/src/cjson/cJSON.c:581-612 | the loop that shifts after each of the first three digits yields the number the four digits write, and 0 when one is no digit |
| Escapes.Utf8RoundTrip | contrib/lvgl_kiosk/src/cjson/cJSON.c:666-704 | every encoding can be decoded again even with other text behind it (section 3 of RFC 3629) |
| Escapes.Utf8Injective | contrib/lvgl_kiosk/src/cjson/cJSON.c:666-704 | distinct code points have distinct encodings, and none begins another |
| Escapes.ContinuationByteBits | contrib/lvgl_kiosk/src/cjson/cJSON.c:690-694 | the masks and shifts of the encoding loop are the arithmetic of the model |
| Escapes.FirstByteBits | contrib/lvgl_kiosk/src/cjson/cJSON.c:696-703 | the mark of the first byte is added, within the bounds that the length leaves to the code point |
| Escapes.SurrogateBits | contrib/lvgl_kiosk/src/cjson/cJSON.c:658 | joining the halves of a surrogate pair with shift and or is an addition |
| Escapes.EncodeUtf8 | contrib/lvgl_kiosk/src/cjson/cJSON.c:666-704 | writing from the last byte to the first puts exactly the encoding at the output position and touches nothing else |
| Escapes.Utf16LiteralToUtf8 | contrib/lvgl_kiosk/src/cjson/cJSON.c:614-710 | an accepted escape appends its UTF-8 and reports 6 or 12 bytes; a refused one reports 0 and leaves the output alone |
| Escapes.ScalarEscapeAccepted | contrib/lvgl_kiosk/src/cjson/cJSON.c:614-710 | every Unicode scalar value, as one escape or as a surrogate pair, is decoded to itself with 6 or 12 bytes consumed |
| Escapes.AcceptedIsScalarEscape | contrib/lvgl_kiosk/src/cjson/cJSON.c:614-710 | conversely, what is accepted with proper digits is the escape of the scalar value it yields |
| Escapes.RejectedIffUnpaired | contrib/lvgl_kiosk/src/cjson/cJSON.c:629-656 | with proper digits an escape is refused exactly when it is an unpaired surrogate |
| Escapes.BadDigitsReadAsNul | contrib/lvgl_kiosk/src/cjson/cJSON.c:600-603 | digits that are no digits make the escape stand for U+0000 |
| StringCodec.ScanString | contrib/lvgl_kiosk/src/cjson/cJSON.c:724-743 | the scanning loop finds the closing quote and counts the skipped backslashes as the recursive definition does |
| StringCodec.StepFits | contrib/lvgl_kiosk/src/cjson/cJSON.c:754-804 | no round of decoding writes more than the room it gives up, although scan and decoding walk with different strides |
| StringCodec.DecodedFits | contrib/lvgl_kiosk/src/cjson/cJSON.c:727-806 | from any position the decoding reaches, well-formed or misaligned, what it still writes fits the room left |
| StringCodec.AllocationHoldsString | contrib/lvgl_kiosk/src/cjson/cJSON.c:745-806 | for every quoted input the decoded bytes and the terminator fit the size computed by the scan |
| StringCodec.DecodeString | contrib/lvgl_kiosk/src/cjson/cJSON.c:745-829 | the decoding loop stays inside the allocated buffer and yields the decoding, or the position of the bad escape |
| StringCodec.EscapedLength | contrib/lvgl_kiosk/src/cjson/cJSON.c:856-877 | the counting loop predicts exactly the number of bytes the writing loop produces |
| StringCodec.ScanReadsBack | contrib/lvgl_kiosk/src/cjson/cJSON.c:727-743 | the scan runs over an escaped text and stops at the quote written behind it, never inside |
| StringCodec.DecodeReadsBack | contrib/lvgl_kiosk/src/cjson/cJSON.c:754-804 | decoding an escaped NUL-free text gives the text |
| WrittenStrings.WrittenStringIsRead | contrib/lvgl_kiosk/src/cjson/cJSON.c:712-829 | every string written with raw bytes, named escapes and escapes of scalar values is read as those bytes, the bytes of the table and the UTF-8 of the scalars, up to behind the closing quote |
| WrittenStrings.AcuteExample | contrib/lvgl_kiosk/src/cjson/cJSON.c:789-795 | an accented letter written as an escape is read as its two bytes |
| WrittenStrings.HexTable | contrib/lvgl_kiosk/src/cjson/cJSON.c:581-612 | the hexadecimal digits and their values, in both cases |
| WrittenStrings.EscapeTable | contrib/lvgl_kiosk/src/cjson/cJSON.c:895-936 | what is written for each byte of a string |
| Numbers.CopyNumber | contrib/lvgl_kiosk/src/cjson/cJSON.c:305-335 | the copying loop takes the run of number characters, at most 63 |
| Numbers.DecimalLength | contrib/lvgl_kiosk/src/cjson/cJSON.c:526-556 | an int takes at most 11 characters, so it fits the 26-byte buffer and the 63-byte copy |
| Numbers.NumberReadsBack | contrib/lvgl_kiosk/src/cjson/cJSON.c:292-362 | a printed int that no number text follows is read as itself and consumed whole |
| Numbers.LiteralOf | contrib/lvgl_kiosk/src/cjson/cJSON.c:336-340 | a number with fraction and exponent, each with its sign, is taken whole and at its value |
| Numbers.Saturates | contrib/lvgl_kiosk/src/cjson/cJSON.c:342-355 | a value beyond the range of int becomes the nearest end, any other int stays |
| Numbers.CutsOff | contrib/lvgl_kiosk/src/cjson/cJSON.c:342-355 | a fraction is cut off toward zero |
| PrintGrammar.DecimalIsNumber | contrib/lvgl_kiosk/src/cjson/cJSON.c:526-556 | a printed int is a number of section 6 of RFC 8259 without fraction and exponent, with a minus exactly when negative |
| Printer.PrintBuffer.Ensure | contrib/lvgl_kiosk/src/cjson/cJSON.c:423-500 | room is made exactly when the limit allows it, and the output is kept when the buffer moves |
| Printer.PrintBuffer.UpdateOffset | contrib/lvgl_kiosk/src/cjson/cJSON.c:502-512 | the offset moves to the terminator, over all of the text stored there |
| Printer.PrintBuffer.PrintNumber | contrib/lvgl_kiosk/src/cjson/cJSON.c:520-579 | stores the decimal text and moves past it, or fails exactly when two more bytes would not fit |
| Printer.PrintBuffer.PrintStringPtr | contrib/lvgl_kiosk/src/cjson/cJSON.c:831-940 | stores the quoted, escaped text in exactly the room that was asked for, or fails exactly when it does not fit |
| Printer.PrintBuffer.PrintValue | contrib/lvgl_kiosk/src/cjson/cJSON.c:1266-1337 | succeeds exactly when the text and two bytes fit, and then the text of the tree stands behind the output |
| Printer.PrintBuffer.PrintArray | contrib/lvgl_kiosk/src/cjson/cJSON.c:1426-1483 | the text of the array stands behind the output and the depth is as before |
| Printer.PrintBuffer.PrintObject | contrib/lvgl_kiosk/src/cjson/cJSON.c:1592-1699 | the text of the object stands behind the output and the depth is as before |
| Printer.Print | contrib/lvgl_kiosk/src/cjson/cJSON.c:1097-1168 | the printed text of a tree, or nothing exactly when it would not fit an int |
| Printer.PrintPreallocated | contrib/lvgl_kiosk/src/cjson/cJSON.c:1201-1218 | succeeds exactly when two bytes beyond the text are given, and leaves the terminated text |
| PrintGrammar.PrintedTextIsJson | contrib/lvgl_kiosk/src/cjson/cJSON.c:1266-1699 | every printed text, formatted or not, is a JSON text by the grammar of RFC 8259 |
| PrintGrammar.FormattedArray | contrib/lvgl_kiosk/src/cjson/cJSON.c:1426-1483 | how an array is laid out, byte by byte |
| PrintGrammar.FormattedObject | contrib/lvgl_kiosk/src/cjson/cJSON.c:1592-1699 | how an object is laid out, an empty one inside it included |
| PrintGrammar.FormattedNesting | contrib/lvgl_kiosk/src/cjson/cJSON.c:1592-1699 | the tabs count the arrays and objects around a member |
| ParseSpec.SkipWhitespace | contrib/lvgl_kiosk/src/cjson/cJSON.c:955-978 | stays inside the buffer although a run up to its end is left by one step back |
| ParseSpec.WholeStringIff | contrib/lvgl_kiosk/src/cjson/cJSON.c:712-829 | the value of a parsed string is all that was decoded exactly when the walk meets no raw NUL and no escape with bad or zero digits, and else what stands before the first NUL |
| ParseSpec.CutOffExample | contrib/lvgl_kiosk/src/cjson/cJSON.c:712-829 | a string whose escape has bad digits is read up to it and consumed whole |
| StringCodec.DecodedHasNulIff | contrib/lvgl_kiosk/src/cjson/cJSON.c:752-806 | from every position the decoded bytes contain a NUL exactly when the walk meets one |
| ParseSpec.ParseValueAt | contrib/lvgl_kiosk/src/cjson/cJSON.c:1220-1264 | on every buffer parsing terminates, the offset never exceeds the length, success strictly advances it, and a failure leaves a depth within the nesting limit |
| ParseSpec.ParseText | contrib/lvgl_kiosk/src/cjson/cJSON.c:1009-1083 | the end of the value or the error position lies in the buffer, and with the terminator required it is a terminator |
| Parser.ParseBuffer.SkipWhitespace | contrib/lvgl_kiosk/src/cjson/cJSON.c:955-978 | the loop with its step back, on the buffer object |
| Parser.ParseBuffer.ParseString | contrib/lvgl_kiosk/src/cjson/cJSON.c:712-829 | reads the string at the offset, or leaves the offset where decoding stopped |
| Parser.ParseBuffer.ParseValue | contrib/lvgl_kiosk/src/cjson/cJSON.c:1220-1264 | reads what the specification says, keeps the buffer invariant, and restores the depth on success |
| Parser.ParseBuffer.ParseElements | contrib/lvgl_kiosk/src/cjson/cJSON.c:1368-1417 | the loop over array elements appends them in order and stops at the bracket |
| Parser.ParseBuffer.ParseMembers | contrib/lvgl_kiosk/src/cjson/cJSON.c:1514-1583 | the loop over object members appends keys and values in order and stops at the brace |
| Parser.ParseWithLengthOpts | contrib/lvgl_kiosk/src/cjson/cJSON.c:1009-1083 | the entry point on any bytes: mark, white space, value, terminator, error position |
| Parser.Parse | contrib/lvgl_kiosk/src/cjson/cJSON.c:1085-1088 | the tree that is read from a C string and its terminator, or nothing when it does not parse |
| Documents.DocIsRead | contrib/lvgl_kiosk/src/cjson/cJSON.c:1220-1590 | anywhere in a buffer a value in any layout and spelling is read as the tree it stands for, up to its end |
| Documents.DocumentIsRead | contrib/lvgl_kiosk/src/cjson/cJSON.c:1009-1083 | every JSON text nested at most 1000 deep, with white space wherever it is allowed and a byte order mark or not, is parsed to its tree and to its end |
| Accepted.ValueWasRead | contrib/lvgl_kiosk/src/cjson/cJSON.c:1220-1590 | what is read as a value has the form of one: tokens, brackets, commas and colons in their places |
| Accepted.AcceptedIsValue | contrib/lvgl_kiosk/src/cjson/cJSON.c:1009-1083 | no other text is accepted: one such value, white space around it and, when required, the terminator |
| RoundTrip.StringReadsBack | contrib/lvgl_kiosk/src/cjson/cJSON.c:831-940 | wherever a NUL-free string was printed, it is parsed back and the offset ends just past the closing quote |
| RoundTrip.ValueReadsBack | contrib/lvgl_kiosk/src/cjson/cJSON.c:1220-1699 | a tree printed in either format anywhere in a buffer, at any depth that leaves room, is parsed back and nothing more is consumed |
| RoundTrip.PrintedTextParses | contrib/lvgl_kiosk/src/cjson/cJSON.c:1009-1168 | parsing the whole printed text gives the same ordered tree and stops at the terminator |
| ParsedTrees.ValueIsSound | contrib/lvgl_kiosk/src/cjson/cJSON.c:1220-1590 | whatever the input, a parsed tree has int-range numbers, terminated strings and at most the allowed nesting |
| ParsedTrees.RoundTripIff | contrib/lvgl_kiosk/src/cjson/cJSON.c:1009-1168 | the round trip holds exactly for representable trees nested at most 1000 deep |
| ParsedTrees.DeepestNesting | contrib/lvgl_kiosk/src/cjson/cJSON.c:1490-1494 | a thousand arrays inside one another are read, one more is not |
| ParsedTrees.ReprintedTextParsesAlike | contrib/lvgl_kiosk/src/cjson/cJSON.c:1009-1168 | whatever text was accepted, printing its tree, whose numbers are ints here, gives a text that stands for the same tree; of a text with fractions or numbers beyond int range the source prints other digits |
| Minify.MinifyInPlace | contrib/lvgl_kiosk/src/cjson/cJSON.c:2634-2701 | the buffer ends up with the minified text, a terminator and its old bytes behind that; writing never overtakes reading |
| Minify.OpenIff | contrib/lvgl_kiosk/src/cjson/cJSON.c:2676-2688 | an automaton that reads the text once says exactly when the copying steps over the terminator |
| Minify.OpenExample | contrib/lvgl_kiosk/src/cjson/cJSON.c:2676-2688 | the shortest text for which it does |
| MinifyKeeps.MinifyIsKept | contrib/lvgl_kiosk/src/cjson/cJSON.c:2634-2701 | outside of strings and comments exactly the spaces, tabs, line feeds and carriage returns are taken out, and the comments; every other byte is kept in order |
| MinifyKeeps.NoWhiteLeft | contrib/lvgl_kiosk/src/cjson/cJSON.c:2634-2701 | unless something was glued together the result shows no white space and no comment outside of its strings |
| MinifyKeeps.NoWhiteLeftIff | contrib/lvgl_kiosk/src/cjson/cJSON.c:2634-2701 | exactly when the result shows no white space outside of its strings |
| MinifyKeeps.WhiteLeftExample | contrib/lvgl_kiosk/src/cjson/cJSON.c:2634-2701 | a glued text whose result shows some |
| MinifyTwice.IdempotentIff | contrib/lvgl_kiosk/src/cjson/cJSON.c:2634-2701 | of a text that is minified properly a second pass changes nothing exactly when an automaton that reads the original once meets no slash kept apart from a star, or from a slash that begins no comment, by blanks and comments alone |
| MinifyTwice.StableFrom | contrib/lvgl_kiosk/src/cjson/cJSON.c:2645-2698 | the same from any place outside of strings and comments on, with or without a slash waiting for its partner |
| MinifyTwice.GluedExample | contrib/lvgl_kiosk/src/cjson/cJSON.c:2645-2675 | a text that a second pass changes |
| MinifyText.ValueIsLeft | contrib/lvgl_kiosk/src/cjson/cJSON.c:2634-2701 | wherever a value was printed, formatted or not, exactly its unformatted print is left of it, strings untouched |
| MinifyText.MinifiedPrintIsUnformatted | contrib/lvgl_kiosk/src/cjson/cJSON.c:2634-2701 | minifying the formatted print gives the unformatted print byte for byte |
| MinifyMeaning.ValueMatches | contrib/lvgl_kiosk/src/cjson/cJSON.c:1220-1590 | the parser reads the same value at matching positions of a text and of its minified form |
| MinifyMeaning.MinifyKeepsMeaning | contrib/lvgl_kiosk/src/cjson/cJSON.c:2634-2701 | every accepted text, however it is laid out, is minified to one that is accepted whole for the same tree |
| ChildList.GetArraySize | contrib/lvgl_kiosk/src/cjson/cJSON.c:1701-1722 | walking next from the first child counts the children, none for NULL |
| ChildList.GetArrayItem | contrib/lvgl_kiosk/src/cjson/cJSON.c:1722-1739 | walking next gives the child at that index, or NULL behind the last |
| ChildList.AddItemToArray | contrib/lvgl_kiosk/src/cjson/cJSON.c:1825-1857 | appends to the children and keeps the list well formed; false for NULL and for the parent itself |
| ChildList.DetachItemViaPointer | contrib/lvgl_kiosk/src/cjson/cJSON.c:2048-2077 | removes that child, keeps the list well formed and leaves the item unlinked |
| ChildList.InsertItemInArray | contrib/lvgl_kiosk/src/cjson/cJSON.c:2118-2149 | inserts before that index, appends beyond the last, refuses a negative index |
| ChildList.ReplaceItemViaPointer | contrib/lvgl_kiosk/src/cjson/cJSON.c:2151-2195 | puts the replacement in the place of the item, head, middle or tail, and unlinks the item |
| ChildList.ReplaceItemInArray | contrib/lvgl_kiosk/src/cjson/cJSON.c:2197-2205 | replaces the child at an index, and nothing when the index is out of range |
| ChildList.KidsAreTheChain | contrib/lvgl_kiosk/src/cjson/cJSON.c:1701-1739 | the ghost sequence of children is the one and only chain of the pointers |
| ChildList.PerformAll | contrib/lvgl_kiosk/src/cjson/cJSON.c:1825-2205 | any sequence of adds, detaches, inserts and replaces keeps the list well formed and edits the sequence of children accordingly |
| Comparison.CompareDoubleIsEquality | contrib/lvgl_kiosk/src/cjson/cJSON.c:514-518 | for ints the relative tolerance is equality |
| Comparison.AlikeIff | contrib/lvgl_kiosk/src/cjson/cJSON.c:2803-2919 | comparing says yes exactly to coherent trees that denote the same value, objects read as maps |
| Comparison.AlikeSymmetric | contrib/lvgl_kiosk/src/cjson/cJSON.c:2803-2919 | comparing does not depend on the order of the arguments |
| Comparison.AlikeTransitive | contrib/lvgl_kiosk/src/cjson/cJSON.c:2803-2919 | comparing is transitive |
| Comparison.AlikeItselfIff | contrib/lvgl_kiosk/src/cjson/cJSON.c:2882-2912 | a tree compares equal to an identical other one exactly when members of one name agree |
| Comparison.UniqueKeysAreCoherent | contrib/lvgl_kiosk/src/cjson/cJSON.c:2882-2912 | unique keys suffice for that |
| Comparison.MemberOrderIsIgnored | contrib/lvgl_kiosk/src/cjson/cJSON.c:2882-2912 | with unique keys the members may stand in any order |
| Comparison.RepeatedKeyExample | contrib/lvgl_kiosk/src/cjson/cJSON.c:2882-2912 | a tree with a repeated key that differs from its copy |
| TreeOps.GetObjectItem | contrib/lvgl_kiosk/src/cjson/cJSON.c:1751-1781 | the first member of that name; the search gives up at a member without one |
| TreeOps.Compare | contrib/lvgl_kiosk/src/cjson/cJSON.c:2803-2919 | on nodes, comparing decides what it decides on their values, the shortcut for one and the same node included |
| TreeOps.Duplicate | contrib/lvgl_kiosk/src/cjson/cJSON.c:2558-2632 | the copy holds the same value in new nodes only, the list of children of every one of them is well formed, prev pointers included, and without recursion it has none |
| TreeOps.CompareWithCopy | contrib/lvgl_kiosk/src/cjson/cJSON.c:2558-2919 | a full copy shares no node with its source and compares equal to it exactly when the source is coherent |
| Framing.PackedReadsBack | src/mower_rover/kiosk/app.py:334 | the length prefix is read back |
| Framing.ExtractConserves | contrib/lvgl_kiosk/src/socket_client.c:197-224 | the buffer is the framed payloads handed on and what is left; when the loop waits no whole frame is left and the buffer is not full |
| Framing.OnlyTheLastIsAccepted | contrib/lvgl_kiosk/src/socket_client.c:213-223 | the loop returns at the first payload the parser accepts, and at no other |
| Framing.HandedIsPrefix | contrib/lvgl_kiosk/src/socket_client.c:197-224 | framed payloads at the front of a stream are the first ones that were sent |
| Framing.NeverOversized | contrib/lvgl_kiosk/src/socket_client.c:202-206 | a stream of payloads of at most 8188 bytes never looks too large, however it is cut |
| Framing.TooLargeIff | contrib/lvgl_kiosk/src/socket_client.c:201-206 | a frame is refused exactly when its length prefix says more than 8188 |
| SocketClient.BackoffIs | contrib/lvgl_kiosk/src/socket_client.c:125-129 | the retry interval doubles from 500 ms and is 10 s from the fifth refusal on |
| SocketClient.Client.TryConnect | contrib/lvgl_kiosk/src/socket_client.c:71-132 | an attempt is made exactly when the interval has passed; success starts with an empty buffer |
| SocketClient.Client.ExtractFrame | contrib/lvgl_kiosk/src/socket_client.c:197-226 | the loop on the array, shifting by memmove, does what the specification says and never leaves the buffer full |
| SocketClient.Client.Poll | contrib/lvgl_kiosk/src/socket_client.c:168-227 | one poll: without a connection exactly one attempt when it is due, with all that becomes of it; otherwise bytes received equal framed payloads handed on and bytes buffered, at most one frame returned, disconnects exactly on close, error or an oversized length |
| SocketClient.RequestIsPositive | contrib/lvgl_kiosk/src/socket_client.c:177-185 | between polls the buffer is never full, so a result of zero bytes only says that the peer closed |
| SocketClient.RunPolls | contrib/lvgl_kiosk/src/socket_client.c:168-227 | over every run on one connection, however the stream is cut, the payloads handed on are a prefix of those sent, and the frames returned are those the parser accepts, in order |
| SocketClient.Drain | contrib/lvgl_kiosk/src/socket_client.c:168-227 | once the stream has arrived, polling until nothing is returned hands on every payload |
| Reconnect.RunTicks | contrib/lvgl_kiosk/src/socket_client.c:71-227 | over every run of polls, with any attempts and any results of recv, the client is connected, and its buffer filled, as the life it leads says |
| Reconnect.ConnectsFirst | contrib/lvgl_kiosk/src/socket_client.c:71-132 | a client that is not connected is connected after the first poll at which the interval has passed and the peer accepts, and not before |
| Reconnect.StaysDown | contrib/lvgl_kiosk/src/socket_client.c:71-132 | and as long as there is no such poll it stays so |
| Reconnect.RefusedIntervals | contrib/lvgl_kiosk/src/socket_client.c:121-129 | refused again and again, it tries after 500, 1000, 2000, 4000, 8000 and then every 10000 milliseconds |
| Reconnect.ConnectsAgain | contrib/lvgl_kiosk/src/socket_client.c:134-143 | after a connection has ended the next attempt is due half a second after the one that made it |
| Dependencies.OrderedIsAcyclic | src/mower_rover/probe/registry.py:97-125 | an order of all checks with dependencies first leaves no room for a cycle |
| Dependencies.PassIff | src/mower_rover/probe/registry.py:164-212 | PASS exactly when the check and all its transitive dependencies pass on their own |
| Dependencies.SkipIff | src/mower_rover/probe/registry.py:171-184 | SKIP exactly when some direct dependency is not PASS |
| Dependencies.PartStatus | src/mower_rover/probe/registry.py:144-164 | a check comes to the same in the part of the registry that a selection reaches as in all of it |
| Registry.Resolver.Visit | src/mower_rover/probe/registry.py:107-120 | the grey set is the path of the recursion; a name is ordered after all it needs, or a cycle exists |
| Registry.ResolveOrder | src/mower_rover/probe/registry.py:97-125 | every key and every named dependency once, dependencies first, or an error exactly when there is a cycle |
| Registry.Expansion.Expand | src/mower_rover/probe/registry.py:149-156 | adds exactly what the name reaches and leaves the set closed, cycles included |
| Registry.Select | src/mower_rover/probe/registry.py:144-162 | the selected specs are the registered checks that the wanted names reach |
| Registry.RunOne | src/mower_rover/probe/registry.py:168-202 | one round: skip with the failed dependencies, or call the check; a check that raises has failed |
| Registry.RunChecks | src/mower_rover/probe/registry.py:128-212 | each selected check is reported once, behind its dependencies, with the status they and the verdicts determine and the dependencies that failed; each function is called at most once, after its dependencies passed; the errors are exactly a cycle and an unregistered dependency |
| Registry.PartialRunAgrees | src/mower_rover/probe/registry.py:144-164 | a run of some checks reports of each exactly what a full run reports, whatever the order of registration |
| Vehicle.UploadStep | src/mower_rover/mavlink/mission.py:78-163 | every step of vehicle and channel keeps the invariant of an upload and the lists of the other types |
| Vehicle.AcceptanceReached | src/mower_rover/mavlink/mission.py:108-111 | when an acknowledgement can be read, the list is stored and every item was sent |
| Vehicle.UndisturbedUpload | src/mower_rover/mavlink/mission.py:78-163 | when nothing is lost, the vehicle can come to accept |
| Vehicle.SettledKept | src/mower_rover/mavlink/mission.py:296-302 | with no upload left, no run of events can make a list longer |
| Vehicle.BoundedStep | src/mower_rover/mavlink/mission.py:326-336 | an announced count on its way stays an upper bound of the list |
| Deeds.RunLeaves | src/mower_rover/mavlink/mission.py:278-338 | in every run of messages sent and events each list is what the clears that were taken and the uploads that were accepted make of it |
| Deeds.ShortIff | src/mower_rover/mavlink/mission.py:278-338 | a list ends up with at most n items exactly when it was that short, or was cut or replaced to that, and no longer one was stored since |
| Vehicle.FaithfulStep | src/mower_rover/mavlink/mission.py:191-263 | what the vehicle has said about a list and is on its way stays true |
| Reading.ReadTakesTheFirst | src/mower_rover/mavlink/mission.py:87-97 | a reading returns the first wanted message that is delivered while it lasts, or none was |
| Reading.ReadStopsAtWait | src/mower_rover/mavlink/mission.py:87-97 | without a message it ends only where there is nothing to read |
| Reading.AwaitTakesTheFirst | src/mower_rover/mavlink/mission.py:147-163 | a wait returns the first message that is accepted, gives up only at its deadline when none was delivered, and sleeps no more often than events pass while there are any |
| Protocol.ServeIsAttentive | src/mower_rover/mavlink/mission.py:87-145 | the first loop of an upload sleeps no more often than events pass while there are any |
| Protocol.TimedOutIsSilence | src/mower_rover/mavlink/mission.py:147-163 | the final wait runs out of time exactly when no acknowledgement was delivered in five seconds |
| Schedules.UploadSucceeds | src/mower_rover/mavlink/mission.py:48-163 | when nothing is lost an upload returns normally behind its last item, and the vehicle stores the list and nothing else |
| Schedules.DownloadSucceeds | src/mower_rover/mavlink/mission.py:166-275 | when nothing is lost a download returns the stored list as the vehicle reports it |
| Schedules.ClearSucceeds | src/mower_rover/mavlink/mission.py:278-338 | when nothing is lost a clear returns normally exactly when no more than the home position is kept |
| Schedules.SilentLine | src/mower_rover/mavlink/mission.py:87-263 | when nothing happens any more each wait gives up after its ten or five seconds, to the tick |
| Mission.UploadMission | src/mower_rover/mavlink/mission.py:48-163 | in every run that began without leftovers a normal return means that the vehicle stores exactly the list, and it does not come before every item was sent; in every run each request is answered with its item and the outcome follows from the messages and the time that passed; a left-over acknowledgement is believed; what it comes to is the upload as a function of the world, the events and the time |
| Mission.SendItems | src/mower_rover/mavlink/mission.py:87-145 | every request for an item of the list is answered with it, until each was asked for once, an acknowledgement or a bad request comes, or ten seconds pass |
| Mission.AwaitAck | src/mower_rover/mavlink/mission.py:147-163 | the final wait sends nothing and comes to what the wait for an acknowledgement of five seconds comes to; an acceptance then means that the list is stored |
| Mission.DownloadMission | src/mower_rover/mavlink/mission.py:166-275 | whatever messages arrive, a returned list has the announced length and every place holds a received item of that number and type; from a faithful vehicle it is the stored list; it fails only when the count did not come within ten seconds after the list was asked for, or an announced item within five seconds after it was asked for |
| Mission.ClearMission | src/mower_rover/mavlink/mission.py:278-338 | a normal return means that the list holds at most the home position, or nothing, whatever was acknowledged; each way to fail has its cause in the messages or the time; one clear is sent |
| Mission.AwaitItem | src/mower_rover/mavlink/mission.py:232-263 | the wait comes to the first item of that number and type that is delivered in five seconds, or fails |
| Mission.Mismatches | src/mower_rover/mavlink/mission.py:382-414 | no field is reported exactly when the items agree within the tolerance |
| Mission.SameItemIff | src/mower_rover/mavlink/mission.py:379-414 | two items match when the parameters and the height differ by a ten-millionth at most and all else is equal |
| Mission.VerifyRoundTrip | src/mower_rover/mavlink/mission.py:341-424 | true exactly when the download comes through and matches field by field; against a faithful vehicle that is the stored list; no list is changed |
| Zone.UploadAll | src/mower_rover/cli/zone_laptop.py:80-83 | the uploads follow one another up to the first that fails, each with the messages and the time that account for its outcome; when none fails all lists are replaced |
| Zone.ComesBackIff | src/mower_rover/cli/zone_laptop.py:84-86 | a stored list compares equal to what was sent exactly when its items bear their numbers and the type they were sent under |
| Zone.VerifyAll | src/mower_rover/cli/zone_laptop.py:84-86 | each answer says whether the list came and matched; on an idle line an answer to a list that came is true of the stored one, and nothing is changed |
| Zone.ClearAllLists | src/mower_rover/cli/zone_laptop.py:88-94 | the lists are asked to be cleared in order up to the first clear that fails, each with the messages and the time that account for its outcome; when all go through no more than the home position is left |
| Zone.EmptiedIff | src/mower_rover/cli/zone_laptop.py:95 | the lists are cleared in truth exactly when what the vehicle did to them leaves them that short |
| Zone.UploadZoneAtomically | src/mower_rover/cli/zone_laptop.py:63-95 | it fails exactly when one of the uploads does; a normal return means that all three lists were replaced, and each verification that got its list tells whether its items bear its type; otherwise exactly the clears up to the first that fails are sent, and the lists are cleared exactly when what the vehicle did during the call leaves them short |
| Zone.OnDeadLine | src/mower_rover/cli/zone_laptop.py:87-95 | on a line where nothing happens any more the exception is raised for every zone with a list, and every list stays as it was |
| Zone.OnGoodLine | src/mower_rover/cli/zone_laptop.py:80-86 | on a line where nothing is lost and nothing left over every zone is uploaded and the call returns normally |
| Zone.FenceSurvives | src/mower_rover/cli/zone_laptop.py:87-95 | a run in which the exception reports a clear and the old fence is still stored |

## Left out

- Floating-point text: numbers are ints; `strtod` is modelled as the decimal grammar with exact arithmetic and truncation, and the `%1.15g` and `%1.17g` forms, NaN and infinities are not printed.
- The tree in the parser and the printer is a value with ordered lists; the nodes on the heap, their prev pointers and their release are modelled in `ChildList` and `TreeOps` only.
- Allocation failure, allocator hooks, the locale's decimal point, raw items, references, constant keys, and NULL strings or NULL keys in the printer.
- The case-insensitive lookup and comparison, and the create, add and delete wrappers built on the operations above.
- Strings are C strings: a parsed string is what stands before its first NUL.
- ParsedTrees.ReprintedTextParsesAlike: says nothing about `valuedouble`, from which the source prints a number that is no int or beyond int range.
- TreeOps.Compare: for trees that overlap and repeat a key with different values only the shortcut for one and the same node is stated.
- The release of a replaced item (`cJSON_Delete`): the item is unlinked, and its memory is not modelled.
- Sockets, file descriptors and `errno`: receiving is an arbitrary fragment within the request, nothing, an error or the end; the payload parser is an arbitrary set of accepted payloads.
- The texts of results and log messages; a check function is its verdict: passed, not passed or raised.
- `derive_exit_code` and `register`: easy branches.
- Real time: the clock counts sleeps and whatever else passes, never backwards, and the events of a run are finite in number.
- Mission.VerifyRoundTrip: the rounding of parameters to 32-bit floats on the wire and NaN parameters are not modelled; parameters are reals.
- Mission.UploadMission: messages to the vehicle are not reordered, which a single serial or UDP hop is taken to provide.
- Exceptions other than those of the mission module inside the zone upload.
- The kiosk's display, the planner, configuration, health readers and transports: none of the properties above depends on them.

# A model of the JSON library and the protocol of SRPC

The extension lets game servers call each other's plugins: requests and replies are JSON texts, one to a
line, signed with an HMAC over the printed text of some of their members. The project models the JSON
library that this rests on (`include/json.hpp`) and the protocol on top of it, and proves what they promise.

- **Pointers, patches, flattening.** Reference tokens are byte strings throughout, so that escaping,
  splitting and unescaping do real work (`Pointer`, `Access`, `AccessLaws`). `Patch`, `PatchLaws`, `Diff`, `DiffLaws`
  and `DiffPatch` cover JSON Patch; `Flatten`, `Unflatten`, `UnflattenLaws`, `Rebuild`, `Restore` and
  `FlattenRoundTrip` cover flattening and its inverse. `Order` relates `operator<` and `operator==`, `OrderLaws` says
  what they compare.
- **Text.** `Printer` writes values, filling the buffer of an escaped string in place; `Rendering` says what its
  layouts look like. `Lexical` says what the tokens are, `Scanner` is the automaton with its cursor and marker,
  `Decode` and `Numbers` give tokens their values, `Grammar` and `Parser` parse; `RoundTrip` joins both directions.
  `Spelling`, `NumberAutomaton` and `Escapes` say byte by byte what may stand in a text: white space, numbers, and the
  pieces of strings.
- **Protocol.** `Message` has the members of messages and their signatures, `Signature` what a signature covers,
  `Requests` the answers to requests, `Admission` which requests are admitted, `Conversation` the table of outstanding
  calls over whole runs, `Wire` what the servers are handed over whole runs, `WireText` the bytes of the lines, `Calls`
  a call from end to end, and `Rpc` the objects themselves, proved against those specifications.

The methods are proved against specification functions. The modules `AccessLaws`, `DiffLaws`, `UnflattenLaws`,
`OrderLaws`, `Rendering`, `Spelling`, `NumberAutomaton`, `Escapes`, `Admission` and `WireText` state what those functions
compute independently of their definitions, with bytes, texts and numbers written out; `Names` ties the constants to
their texts.

A broadcast dereferences the null pointers that looking up an unknown server leaves behind. What happens then is
undefined: the run is over, the flag `crashed` records it, and nothing further is claimed. `Wire.WhenNullIsMet`
says exactly when that happens.

An object is a map, and `Bytes.SortedKeys` is the order in which `std::map` iterates. Integers are 64 bits wide;
where the source wraps around or truncates, the model does too. An exception is a `Result` with the class of the
exception. A function that changes a document in place through a reference returns the whole changed document.
The digest, the key, the clock, the generator of identifiers and the behaviour of plugin callbacks are
parameters; the theorems hold for all of them (identifiers are required to be fresh).

Where the documentation promises more than the code does, the model follows the code:

- `source.patch(diff(source, target)) == target` (line 9789 of `include/json.hpp`) fails when an array has to change at a
  position that does not fit into an `int`: `DiffPatch.PatchOfDiff` has the exact condition, a witness is
  `DiffPatch.OverlongArrayFails`.
- `j == j.flatten().unflatten()` (line 9458) fails for more than empty containers: an object whose first pointer starts
  with `/0` comes back as an array. `FlattenRoundTrip.UnflattenOfFlatten` has the exact condition, a witness is
  `FlattenRoundTrip.ZeroKeyComesBackAsArray`.
- Not every integer literal that is out of range becomes a floating-point number: `Numbers.PromiseKept` has the exact
  condition, and `Numbers.BoundIsTight` the smallest magnitude at which an overflow goes unnoticed.
- `operator<` is a strict weak order only while unsigned integers fit into a signed one:
  `Order.OrderIsStrictWeakUpToInt64Max`.
- Non-negative integers come back from a text as unsigned ones, which `operator==` does not distinguish
  (`RoundTrip.Norm`).
- A timestamp is cut to 32 bits before it is compared with the clock, so that no request is fresh once the clock is
  beyond that range: `Requests.NothingIsTimelyAfter2038`.
- Inside strings RFC 7159 asks for every control character to be escaped; raw bytes from 0x10 to 0x1F are accepted
  (`Escapes.RawPiece`, `Escapes.BodyStarts`). The escape of a low surrogate that no high one precedes is accepted, and
  gives bytes that are not UTF-8: `Escapes.LoneLowSurrogate`.
- An `add` creates one missing parent where section 4.1 of RFC 6902 asks for an error, though not a top-level one
  (`PatchLaws.AddCreatesOneParent`, `PatchLaws.AddBelowMissing`), and a `remove` below a value without children succeeds
  (`PatchLaws.RemovalBelowLeaf`).
- The texts that a signature digests stand next to each other without anything between them. They determine the
  signed members of messages in which no integer is followed by digits, as when the identifier is a string;
  `Signature.WhenCovered` has the exact condition for requests, a witness is
  `Signature.SameTextOfDifferentRequests`.

## Model

| member | source | states |
|---|---|---|
| Order.OrderIsStrictWeakUpToInt64Max | include/json.hpp:5470-5552 | on float-free values whose unsigned integers are at most a bound, `<` is irreflexive and transitive and "neither is less" is exactly `==`, an equivalence, if and only if the bound is at most 2^63 - 1 |
| Order.Trichotomy | include/json.hpp:5470-5552 | of two such values exactly one holds: less, equal, greater; through nested arrays, objects and mixed integers |
| Order.CompareChains | include/json.hpp:5470-5552 | any two comparisons along a chain of three such values determine the third as in an order |
| OrderLaws.TypesInOrder | include/json.hpp:5233-5254 | null is less than everything else; booleans before numbers, these before objects, arrays, strings; false before true |
| OrderLaws.IntegersByValue | include/json.hpp:5470-5552 | integers of either kind up to 2^63 - 1 are less or equal exactly as their values are |
| OrderLaws.LexByFirstDifference | include/json.hpp:5470-5552 | strings: smaller at the first byte that differs, or a proper prefix |
| OrderLaws.ArraysByFirstDifference | include/json.hpp:5470-5552 | arrays: the first pair of elements of which one is less decides, and if there is none, the shorter array is less |
| OrderLaws.ObjectsByFirstDifference | include/json.hpp:5470-5552 | objects: the same of their members in key order, the key before the value |
| OrderLaws.EqualIsSame | include/json.hpp:5280-5359 | float-free values are equal exactly if they are the same value once every integer is read as the signed number with its 64 bits |
| Json.EqTransitive | include/json.hpp:5280-5359 | on float-free values `==` is transitive, also across signed and unsigned integers and beyond the range in which `<` is an order |
| Json.EqSymmetric | include/json.hpp:5280-5359 | `==` is symmetric |
| Bytes.AscendingIsUnique | include/json.hpp:6019-6047 | the order in which members are written is determined by the keys alone |
| Pointer.ReplaceSubstring | include/json.hpp:9161-9173 | the loop ends and computes the leftmost non-overlapping replacement, also when the replacement contains the pattern |
| Pointer.EscapeIsEncode | include/json.hpp:9176-9182 | the two passes of escape equal the byte-by-byte encoding of section 3 of RFC 6901 |
| Pointer.EscapeBytes | include/json.hpp:9176-9182 | byte by byte: a tilde becomes 7E 30, a slash 7E 31, every other byte stays |
| Pointer.UnescapeIsDecode | include/json.hpp:9185-9191 | on well-formed tokens the two passes of unescape equal one-pass decoding (section 4 of RFC 6901) |
| Pointer.EscapeUnescape | include/json.hpp:9176-9191 | an escaped token is well-formed, has no slash, and unescapes to the original, for every byte string |
| Pointer.UnescapeEscape | include/json.hpp:9176-9191 | a well-formed token without a slash is escaped back to itself |
| Pointer.CheckEscapes | include/json.hpp:9122-9136 | the inner loop of split accepts exactly the tokens in which every tilde is followed by 0 or 1 |
| Pointer.SplitReference | include/json.hpp:9086-9144 | the loop over slashes computes the list of unescaped pieces, or the exception |
| Pointer.PrintPointer | include/json.hpp:8779-8789 | the text is the escaped tokens, each behind a slash |
| Pointer.SplitToString | include/json.hpp:8762-8789 | every list of tokens, empty tokens included, survives printing and splitting |
| Pointer.ToStringSplit | include/json.hpp:9086-9144 | split accepts exactly the empty text and the well-formed texts that start with a slash, and an accepted text is printed back unchanged: the documented invariant |
| Pointer.ToStringInjective | include/json.hpp:8779-8789 | different lists of tokens have different texts |
| Access.GetChecked | include/json.hpp:8945-8987 | the walk of at() along the tokens, with the exception of the first step that fails |
| Access.StoiOfDec | include/json.hpp:8958-8978 | an index survives std::to_string and std::stoi exactly if it fits into an int, and then passes the checks on index tokens |
| AccessLaws.StoiReads | include/json.hpp:8958-8978 | white space, a sign and digits are read, whatever follows; no digit is invalid_argument, a number outside of int out_of_range |
| AccessLaws.StepFinds | include/json.hpp:8945-8987 | what one token finds: a member by its key, an element by an index; the exception for "-", a superfluous zero, an index beyond the end, and a value without children |
| AccessLaws.StepCreates | include/json.hpp:8901-8943 | what it creates where nothing is: a null member, a null element for "-"; nothing in a value without children |
| AccessLaws.StepFillsUp | include/json.hpp:8901-8943 | an index beyond the end fills the array up with nulls, and leaves the elements before it |
| Access.PutLaws | include/json.hpp:8945-8987 | what is put at an existing place is found there, the last put counts, and putting back what was there changes nothing |
| Access.ModifyBelow | include/json.hpp:8901-8987 | a change through a pointer that continues an existing one changes that subtree as it would change the subtree alone, and nothing else |
| Patch.PatchDocument | include/json.hpp:9519-9778 | the operations are applied in order to a working copy; the first that fails decides the exception |
| Patch.ApplyAllConcat | include/json.hpp:9519-9778 | a patch may be applied in two parts |
| Patch.ApplyAllBelow | include/json.hpp:9519-9778 | operations moved below an existing path do to that subtree what they do to it alone, and leave the rest of the document as it was |
| PatchLaws.ReadsExactly | include/json.hpp:9657-9697 | an element of a patch is read as an operation exactly if it is an object with the name and path of the operation and, where there is one, its value or source; other members do not matter |
| PatchLaws.RemoveUndoesAdd | include/json.hpp:9558-9647 | adding at a new key, or at an index up to the end of an array, succeeds, brings the value there, and removing it again restores the document |
| PatchLaws.AddUndoesRemove | include/json.hpp:9558-9647 | whatever exists below the root can be removed, and adding it back at the same path restores the document |
| PatchLaws.AddedChild | include/json.hpp:9578-9610 | the new child is found under its token, and the other children are what removing it leaves |
| PatchLaws.AdditionIs | include/json.hpp:9578-9619 | what an addition makes of each kind of parent: a member is set, null becomes an object, "-" appends, an index inserts, everything else is refused |
| PatchLaws.DashAppends | include/json.hpp:9590-9594 | an addition at "-" is found at the index that was the length, leaves every other element where it was, and equals the addition at that index |
| PatchLaws.WholeDocument | include/json.hpp:9560-9564 | an addition to the whole document replaces it; the whole document cannot be removed |
| PatchLaws.AddReplacesMember | include/json.hpp:9578-9588 | adding where a member exists replaces it |
| PatchLaws.AddBelowMissing | include/json.hpp:9566-9573 | the value behind the first token must exist, else its exception is thrown |
| PatchLaws.AddCreatesOneParent | include/json.hpp:9575-9583 | further down one missing member is created as an object around the value |
| PatchLaws.AddCreatesNoMore | include/json.hpp:9575-9583 | of two missing members the walk stops at the second with out_of_range |
| PatchLaws.RemovalIs | include/json.hpp:9622-9647 | what a removal makes of its parent: an array loses exactly the element, the exception for an index that is no number or out of range; a value without children stays |
| PatchLaws.RemovalNeedsMember | include/json.hpp:9628-9640 | a member that is missing cannot be removed |
| PatchLaws.RemovalBelowLeaf | include/json.hpp:9622-9647 | so removing below a value without children succeeds and changes nothing |
| PatchLaws.MoveBack | include/json.hpp:9718-9733 | moving a value to a new place brings it there, and moving it back restores the document |
| PatchLaws.MoveIsRemovalAndAddition | include/json.hpp:9718-9733 | a move is a removal followed by an addition of what was removed |
| PatchLaws.CopyOverwrites | include/json.hpp:9735-9743 | a copy onto an existing place overwrites it, also in an array |
| PatchLaws.CopyAddsMember | include/json.hpp:9735-9743 | a copy to a new member of an object is an addition of the value at the source |
| PatchLaws.MissingIsRefused | include/json.hpp:9718-9743 | a missing source ends a move or a copy with the exception of the walk |
| PatchLaws.ReplaceLaws | include/json.hpp:9711-9716 | replace succeeds exactly if the target exists, changes that place only, and is undone by replacing back |
| PatchLaws.TestLaws | include/json.hpp:9745-9766 | how a test ends: without an exception exactly if the place exists and holds an equal value; otherwise in domain_error, except that invalid_argument escapes exactly if the walk comes to an array with a token, other than "-", that stoi cannot read |
| PatchLaws.TestSeesWrites | include/json.hpp:9699-9766 | a replacement or an insertion followed by a test of the same place goes through exactly if the value written equals the value tested, and then leaves what the write left |
| PatchLaws.AtError | include/json.hpp:8945-8987 | a place that is missing is reported by invalid_argument exactly if an array index on the way cannot be read, by domain_error exactly if one has a superfluous zero, and else by out_of_range |
| Diff.ReadDocument | include/json.hpp:9660-9697 | an operation is read back from its JSON object as it was: name, path and arguments, for all six kinds |
| Diff.StepsOfDocuments | include/json.hpp:9657-9778 | applying the JSON patch document of a list of operations is applying the operations |
| Names.PatchMembers | include/json.hpp:9657-9778 | the names of the members and of the operations of a patch, letter by letter |
| Diff.DiffValues | include/json.hpp:9812-9942 | the recursion with its loops writes the operations on the two values, under the path it was called with |
| Diff.DiffItems | include/json.hpp:9841-9849 | the common items are compared pairwise, each under its index |
| Diff.RemoveItems | include/json.hpp:9854-9866 | inserting every removal at the same place of the result puts the last index first |
| Diff.AddItems | include/json.hpp:9868-9878 | surplus items of the target are added one after the other, each at the index that is then the end |
| Diff.DiffMembers | include/json.hpp:9885-9906 | the members of the source are compared or removed, each under its escaped key |
| Diff.AddMembers | include/json.hpp:9908-9922 | members that only the target has are added |
| DiffPatch.RemovalsApply | include/json.hpp:9854-9866 | removing from the end down leaves exactly the common part, if the indices fit into an int |
| DiffPatch.AdditionsApply | include/json.hpp:9868-9878 | every addition finds the array exactly as long as its index |
| DiffPatch.OperationsApply | include/json.hpp:9812-9942 | the operations of a difference apply exactly if the values are addressable, and then lead to a value equal to the target; there are none exactly if the values are equal |
| DiffLaws.OperationsAreNeeded | include/json.hpp:9812-9942 | every operation of a difference replaces a value at which source and target differ, other than as two arrays or two objects, by that of the target, removes a child that the target lacks, or adds one of the target that the source lacks: places that agree are left alone |
| DiffLaws.NothingToDo | include/json.hpp:9812-9942 | a difference is empty exactly for equal values |
| DiffPatch.Difference | include/json.hpp:9812-9942 | diff returns the patch document that the theorems below speak of |
| DiffPatch.PatchOfDiff | include/json.hpp:9786-9790 | applying the difference of two float-free values throws exactly if an array would have to change at a position beyond an int, and otherwise yields a value equal to the target |
| DiffPatch.PatchOfDiffIndexable | include/json.hpp:9786-9790 | the documented invariant, for all float-free values without longer arrays |
| DiffPatch.OverlongArrayFails | include/json.hpp:9786-9790 | a value at which the invariant fails: emptying any array that is longer than an int can count |
| DiffPatch.PatchOfDiffBelow | include/json.hpp:9812-9942 | a difference computed for a path, applied to the whole document, throws under the same condition, and otherwise brings a value equal to the target to that path and leaves everything else as it was |
| Flatten.FlattenInto | include/json.hpp:9200-9251 | the recursion adds one entry per leaf to the result, under the pointer of the leaf |
| Flatten.Flattened | include/json.hpp:9435-9440 | flatten() yields the object of exactly those entries |
| Flatten.FlattenConservesLeaves | include/json.hpp:9200-9251 | for every value there are as many entries as leaves, every leaf has its key, and looking a key up with at() reaches its leaf exactly if the indices on the way fit into an int; empty containers are recorded as null |
| Flatten.IndexableResolves | include/json.hpp:9200-9251 | in a value without longer arrays every key resolves |
| Flatten.KeyIsLeaf | include/json.hpp:9200-9251 | every key splits into the path of a leaf, and holds its value |
| Flatten.LeafResolves | include/json.hpp:8945-8987 | a path to a leaf resolves exactly if its indices fit into an int, to the value that flatten records |
| Unflatten.UnflattenObject | include/json.hpp:9258-9284 | the loop over the entries in key order, with the exceptions for non-objects and values that are not primitive |
| UnflattenLaws.OnlyObjects | include/json.hpp:9260-9263 | anything but an object is refused with domain_error |
| UnflattenLaws.BadEntryIsRefused | include/json.hpp:9258-9284 | an entry with an array or object as its value, or a malformed pointer as its key, is refused whatever else there is |
| UnflattenLaws.ContainerIsDomainError | include/json.hpp:9270-9274 | the exception is domain_error, unless an entry before it in key order throws first |
| UnflattenLaws.SingleEntry | include/json.hpp:8832-8886 | one entry comes back as a chain of containers along its tokens, arrays for "0" and objects for all others |
| UnflattenLaws.AssignedIsFound | include/json.hpp:8832-8886 | at() finds a value that was assigned under its pointer, if no index has a superfluous zero |
| UnflattenLaws.NothingBelowLeaves | include/json.hpp:8872-8882 | nothing can be assigned below a value that is neither null nor a container |
| Rebuild.CreateAdmissible | include/json.hpp:8832-8886 | assigning the next leaf to the value rebuilt from the leaves so far, with its gaps filled with null, gives the value rebuilt from one leaf more |
| Restore.CreateInadmissible | include/json.hpp:8832-8886 | a leaf met in the wrong way is refused, or an array is put where an object was |
| Restore.WrongStays | include/json.hpp:8832-8886 | an array in the place of an object is never repaired by later leaves |
| Restore.ZeroFirst | include/json.hpp:9258-9284 | below an array the pointers through index 0 sort before all others, although 10 sorts before 2 |
| FlattenRoundTrip.UnflattenOfFlatten | include/json.hpp:9455-9458 | unflatten(flatten(j)) is a value equal to j exactly if nothing inside is empty, no array is longer than an int counts, and every object with a key "0" has another key whose pointers sort before it; and then it is j itself |
| FlattenRoundTrip.PlainIsRestorable | include/json.hpp:9455-9458 | in particular this holds without empty containers and keys "0" |
| FlattenRoundTrip.ZeroKeyComesBackAsArray | include/json.hpp:8842-8848 | the one-member object {"0": v} comes back as [v] |
| Printer.ExtraSpace | include/json.hpp:5833-5867 | the number of bytes by which escaping lengthens the text |
| Printer.EscapeString | include/json.hpp:5882-5988 | the buffer is filled exactly: every write is inside it, the last byte is written last, and the cells left alone are the intended backslashes |
| Printer.WriteEscaped | include/json.hpp:5898-5984 | one round of the loop writes the escape of one byte and touches nothing else |
| Printer.Dump | include/json.hpp:2097-2113 | the text of a value under a layout, as the specification of the theorems below |
| Printer.DumpTo | include/json.hpp:6007-6156 | writing to a stream appends the text of the value |
| Rendering.TextIsLaidOut | include/json.hpp:6007-6156 | all layouts of a float-free value have the same tokens; the compact text is nothing but these; the other one has a new line and the indentation of its depth, modulo 2^32, behind opening brackets and commas and in front of closing brackets, a space behind colons, and nothing inside empty containers |
| Rendering.EscapeTable | include/json.hpp:5898-5984 | the escape of every byte: two bytes for seven of them, \u00 and two lower-case digits for the other control characters, and the byte itself for all others |
| Lexical.NumberIsLongest | include/json.hpp:7544-7615 | the recognised length is that of the longest prefix in the number grammar of section 6 of RFC 7159, and 0 exactly if there is none |
| NumberAutomaton.NumberIsAccepted | include/json.hpp:7544-7615 | the number grammar is the language of a ten-state automaton over bytes |
| Lexical.StringIsUnique | include/json.hpp:7673-7787 | behind an opening quote at most one prefix is a string, and the recogniser finds it |
| Scanner.Lexer.Scan | include/json.hpp:7339-8101 | the automaton returns the first token, which `Spelling.LexTakesApart` and `Spelling.SpelledTokens` determine byte by byte, and stops behind it; it always advances, reads nothing behind the NUL byte at the end, and never starts behind it |
| Scanner.Lexer.ScanNumber | include/json.hpp:7544-7615 | with its marker it falls back to the end of the longest number |
| Scanner.Lexer.ScanString | include/json.hpp:7531-7538 | it stops behind the closing quote, or falls back to the opening one |
| Spelling.SkippedTokens | include/json.hpp:7353-7361 | any run of the bytes 20, 09, 0A, 0D and of byte order marks EF BB BF in front of a text leaves its tokens as they are |
| Spelling.SpelledTokens | include/json.hpp:7339-8101 | any list of tokens, written out with such runs before each and at the end, is scanned as that list; nothing is needed between tokens except between two numbers of which the second has no sign |
| Spelling.WhiteSpaceIsIgnored | include/json.hpp:8475-8484 | so a text is parsed alike whatever stands between its tokens |
| Spelling.LexTakesApart | include/json.hpp:7339-8101 | and nothing else is skipped: any text is such a run, then the end, a NUL byte, exactly the spelling of the token returned, or one byte that is an error |
| Decode.UnicodeRoundTrip | include/json.hpp:7224-7286 | every Unicode scalar value is encoded so that a decoder for section 3 of RFC 3629 gives it back |
| Decode.SurrogatePairs | include/json.hpp:7224-7286 | a surrogate pair stands for 0x10000 + (hi - 0xD800) * 0x400 + (lo - 0xDC00); two \u escapes never exceed 0x10FFFF, and fail exactly on a high surrogate without a low one |
| Decode.BodyValueError | include/json.hpp:8218-8247 | decoding a string never throws out_of_range |
| Decode.GetString | include/json.hpp:8159-8260 | the loop decodes the last token, as the theorems on `Escapes` determine byte by byte, and reads nothing outside it |
| Escapes.RawPiece | include/json.hpp:8249-8254 | bytes from 0x10 on other than quote and backslash stand for themselves |
| Escapes.LetterPiece | include/json.hpp:8170-8217 | what each of the eight escape letters stands for, the slash included |
| Escapes.CodePiece | include/json.hpp:8218-8248 | \u and any four digits of either case that denote a scalar value positionally give its UTF-8 form |
| Escapes.PairPiece | include/json.hpp:8224-8239 | so do the two escapes of the surrogate pair of a scalar value above 0xFFFF |
| Escapes.LoneHighSurrogate | include/json.hpp:8226-8237 | a high surrogate that no escape of a low one follows is an error |
| Escapes.LoneLowSurrogate | include/json.hpp:8240-8246 | a low surrogate alone gives the three bytes of its number |
| Escapes.BodyStarts | include/json.hpp:7673-7787 | a string starts with one of these pieces or is empty: nothing else is accepted between quotes |
| Escapes.CodeAnywhere | include/json.hpp:8218-8248 | such an escape gives that form wherever it stands in a string |
| Escapes.PairAnywhere | include/json.hpp:8224-8239 | and so does a pair |
| Escapes.StringText | include/json.hpp:8475-8484 | a quoted body with white space around it is parsed as the string that its pieces stand for, or refused with their exception |
| Decode.QuotedRoundTrip | include/json.hpp:6102-6103 | for every byte string and whatever follows, the quoted escaped text is scanned as one string token of exactly that length, which decodes to the string |
| Numbers.GetNumber | include/json.hpp:8348-8431 | the loop with its overflow test, for either sign |
| Numbers.PointOrExponentIsFloat | include/json.hpp:8370-8391 | a literal with a decimal point or an exponent becomes a floating-point number; any other one is an optional minus sign and digits |
| Numbers.StoredModulo | include/json.hpp:8395-8409 | what is stored is the literal modulo 2^64, and a float results exactly if the test notices an overflow at some digit |
| Numbers.PromiseKept | include/json.hpp:8327-8347 | a literal that fits is stored exactly and any other becomes a float, if and only if it fits or an overflow is noticed at some digit |
| Numbers.BelowBoundIsFloat | include/json.hpp:8395-8409 | below 20496382304121724017 every literal that does not fit becomes a float, with either sign |
| Numbers.BoundIsTight | include/json.hpp:8401-8404 | that bound is tight: the literal itself becomes the integer 2049638230412172401, and with a minus sign its negation |
| Numbers.IntegerLiterals | include/json.hpp:8348-8431 | what an integer literal becomes, sign included; the smallest signed integer is taken in by wrapping around |
| Grammar.ParseIsGrammar | include/json.hpp:8488-8677 | a token list is accepted with a value exactly if it derives from the grammar of sections 2 to 5 of RFC 7159, followed by the end of the input, and the derivation denotes that value, the last of several equal keys counting |
| Grammar.ItemsInOrder | include/json.hpp:8572-8624 | an array has the values of its items, in their order |
| Grammar.LastMemberCounts | include/json.hpp:8495-8570 | an object has exactly the keys that occur, each with the value of its last occurrence |
| Grammar.YieldIsClean | include/json.hpp:8682-8694 | nothing that is accepted holds an error token |
| Parser.Machine.ParseInternal | include/json.hpp:8488-8677 | recursive descent with one token of lookahead: on success exactly the tokens of one value are consumed; recursion and loops end |
| Parser.Machine.ParseArray | include/json.hpp:8572-8624 | the do loop over items |
| Parser.Machine.ParseObject | include/json.hpp:8495-8570 | the do loop over members |
| Parser.Machine.GetToken | include/json.hpp:8680-8684 | the scanner is never asked for a token behind the end of the input or an error |
| Parser.ParseDocument | include/json.hpp:8475-8484 | parse() of a text |
| Parser.ParseTextIsGrammar | include/json.hpp:8475-8484 | a text is accepted with a value exactly if its tokens derive from the grammar and denote it; every other text is refused with invalid_argument |
| RoundTrip.ParseOfDump | include/json.hpp:2097-2113 | for every float-free value, layout and trailing white space, parsing the printed text succeeds with an equal value, namely the same one with its non-negative integers unsigned |
| RoundTrip.ValueTokens | include/json.hpp:6007-6156 | the tokens of printed text are those that the grammar derives for the value |
| RoundTrip.PrintParsePrint | include/json.hpp:6007-6156 | printing, parsing and printing again gives the same text, for any two layouts |
| RoundTrip.TextDeterminesValue | include/json.hpp:6007-6156 | two values have the same text exactly if they differ in the signedness of non-negative integers only |
| RoundTrip.CompactIsOneLine | src/Server.cpp:65-66 | the compact text holds no newline, so that the terminator behind it is the first one |
| Message.TouchAdds | include/json.hpp:3313-3332 | reading members through operator[] inserts the missing ones as null and changes nothing else |
| Names.MessageMembers | src/CommandProcessor.cpp:44-219 | the names of the members and the version, letter by letter |
| Names.ErrorTexts | src/CommandProcessor.cpp:148-164 | the codes and messages of the errors |
| Message.TextsSurvive | src/CommandProcessor.cpp:201-219 | for float-free messages the text that is digested is the same before sending and after parsing |
| Message.RequestSurvives | src/CommandProcessor.cpp:44-60 | whatever is sent is parsed back with every member as it was given, the inserted nulls included, and is authentic under the same key |
| Message.ReplySurvives | src/CommandProcessor.cpp:171-177 | a signed reply is parsed back with its identifier and result, reports no error and is authentic under the same key |
| Requests.SentRequestIsUnderstood | src/CommandProcessor.cpp:115-146 | a request made by SendRequest, whatever it holds, is never refused for its signature: it is an invalid request exactly if its time stamp, cut to 32 bits, is too old, its params are no array or its method is no string |
| Admission.ObjectOutcome | src/CommandProcessor.cpp:115-189 | what comes of any object: it is an invalid request unless its stamp, cut to 32 bits, is at most 30 seconds behind the clock, its sig is the digest of its five texts, its params are an array and its method a string; then the method runs exactly if it is registered and the arguments have the declared types; else a request with a number or string as id gets the error with the code and message of the source, and any other nothing |
| Admission.OtherOutcome | src/CommandProcessor.cpp:115-189 | what comes of any other line: a parse error, silence for an array, an invalid request for the rest |
| Admission.RunsExactlyIf | src/CommandProcessor.cpp:115-189 | a method runs for a line if and only if it is an object that is fresh, signed under the key, names a registered method and has matching arguments |
| Admission.ForgedIsRefused | src/CommandProcessor.cpp:136-142 | an object whose sig is not the digest of its members under the key is an invalid request, whatever else it holds |
| Requests.ArgumentsSurvive | src/RPCMethod.cpp:37-63 | float-free arguments pass or fail the type checks alike before sending and after parsing |
| Admission.TypeIsSeenInText | src/RPCMethod.cpp:50-63 | a float-free argument passes as a string exactly if its text starts with a quote, as a boolean exactly if it is true or false, as an int or a float exactly if it is a number, and as JSON always |
| Admission.CallRunsByText | src/CommandProcessor.cpp:115-179 | a fresh call runs its method exactly if that is registered and the texts of the arguments pass, one for each parameter |
| Requests.NothingIsTimelyAfter2038 | src/CommandProcessor.cpp:127 | once the clock is 30 seconds beyond 2^31 - 1 every request is too old |
| Requests.HonestStampIsTimely | src/CommandProcessor.cpp:127 | a stamp that is at most 30 seconds old and not from the future passes exactly if it is at most 2^31 - 1 |
| Signature.RequestTextDetermines | src/CommandProcessor.cpp:201-210 | two float-free requests in which no signed integer is followed by digits are digested from the same text exactly if their five signed members agree, up to the signedness of non-negative integers |
| Signature.ReplyTextDetermines | src/CommandProcessor.cpp:212-219 | the same of replies and their three signed members |
| Signature.AcceptedRepliesAreSeparable | src/CommandProcessor.cpp:87 | a reply with a string as identifier meets that condition |
| Signature.WhenCovered | src/CommandProcessor.cpp:201-210 | of the requests with a version, a method, an array of parameters and an integer time stamp: no other one with different signed members is digested from the same text, if and only if it is not the case that the identifier is a non-negative integer and the digits of time stamp and identifier can also be divided at another place into two 64-bit integers |
| Signature.CallsAreCovered | src/CommandProcessor.cpp:201-210 | requests with a string as identifier, or none, are covered |
| Signature.SameTextOfDifferentRequests | src/CommandProcessor.cpp:201-210 | the witness: time stamp 12 with identifier 3, and time stamp 1 with identifier 23 |
| Conversation.EveryRun | src/CommandProcessor.cpp:44-113 | over every run of calls, notifications, broadcasts and delivered lines, with callbacks that send again: the outstanding calls are those that were sent and not yet answered; a call is answered at most once, by a reply that was delivered, whose error is null, whose sig is the digest of its text under the key, and whose id is that of the call; unless the run met a null pointer, the callbacks that ran are those of the answered calls that have one, once each, with the result of the reply |
| Conversation.RunIsGood | src/CommandProcessor.cpp:44-113 | the invariant behind it, kept by every event |
| Conversation.OtherReplyIsDropped | src/CommandProcessor.cpp:72-97 | a reply with an error, with another sig than the digest of its text, without a string as id, or for no outstanding call leaves everything as it was |
| Conversation.SignedReplyIsAccepted | src/CommandProcessor.cpp:72-97 | every other reply answers the call that it names and takes it out of the table |
| Conversation.CallbackRunsFirst | src/CommandProcessor.cpp:87-94 | the callback runs before its call leaves the table: if a command of it ends the run, the call is still there |
| Conversation.ForgedReplyIsDropped | src/CommandProcessor.cpp:81-83 | a delivered object that is not signed with the digest of its text under the key changes nothing |
| Conversation.ForgedElementIsDropped | src/CommandProcessor.cpp:81-106 | nor does such an element of a batch, and the others are processed as if it were not there |
| Conversation.BatchIsItsElements | src/CommandProcessor.cpp:99-113 | a batch does what its elements do delivered one by one, up to the first that is neither null nor an object |
| Conversation.OtherTextIsIgnored | src/CommandProcessor.cpp:99-113 | a text that is no JSON, or neither an object nor an array, changes nothing |
| Wire.RunHas | src/CommandProcessor.cpp:44-113 | the induction principle for the theorems below: a property of the servers and the commands that every command keeps, callbacks included, holds over every run |
| Wire.EveryLineIsAuthentic | src/CommandProcessor.cpp:44-70 | over every run, each line handed to a server is one line and authentic to a receiver with the same key |
| WireText.CallLine | src/CommandProcessor.cpp:44-60 | the bytes of the line of a call or notification: id, jsonrpc, method, params, sig, timestamp in this order, null for what is absent, and the sig the digest of five texts in the order of the source |
| WireText.ResultLine | src/CommandProcessor.cpp:169-179 | the bytes of a result: id, jsonrpc, result and sig, the digest of three texts |
| WireText.ErrorLine | src/CommandProcessor.cpp:191-199 | the bytes of an error reply |
| WireText.ReplyTextIs | src/CommandProcessor.cpp:212-219 | what is digested to check a reply: its jsonrpc, id and result, in this order, a missing one as null |
| Wire.LinesArriveInOrder | src/CommandProcessor.cpp:44-70 | over every run that meets no null pointer, each registered server has been handed exactly the lines of the calls, notifications and broadcasts for it, once each and in order, each call under the next identifier |
| Wire.WhenNullIsMet | src/CommandProcessor.cpp:45-70 | a run meets a null pointer exactly if a broadcast comes after a command for a server that is not registered, or there was one from the start; there are null pointers under the same condition; servers stay registered as they were |
| Wire.NamedServersSuffice | src/CommandProcessor.cpp:45-70 | no run meets one, and none is left behind, if every server that is named is registered |
| Calls.SentIsAnswered | src/CommandProcessor.cpp:115-189 | the answer to a fresh call or notification with an array of arguments, in terms of what the caller gave: the method runs exactly if it is registered and every argument has its declared type; otherwise a call gets an error under its own identifier and a notification nothing |
| Calls.CallHasOneReply | src/CommandProcessor.cpp:148-179 | a call is answered once, under its identifier: at once with an error, or with the result when the method is finished |
| Calls.NotificationHasNoReply | src/CommandProcessor.cpp:148-179 | a fresh notification is answered neither at once nor later |
| Calls.WholeCall | src/CommandProcessor.cpp:44-189 | a call between two processors with one key: the line sent makes the other side run the method with equal arguments, the line that comes back makes the callback run once with an equal result and takes this call and no other out of the table, after which delivering it again changes nothing (unless a broadcast in the callback meets a null pointer) |
| Calls.ErrorIsDropped | src/CommandProcessor.cpp:72-76 | an error reply changes nothing: its call stays outstanding |
| Rpc.ValidateArguments | src/RPCMethod.cpp:37-63 | true exactly if there is one argument for each declared parameter and each has the declared type, which `Admission.TypeIsSeenInText` determines from its text; the exception for values that are no array |
| Rpc.RPCCall.Build | src/RPCCall.cpp:54-60 | the request has the version, the method, the arguments if there are any, an identifier exactly for a call, and no other member |
| Conversation.CallMessageIs | src/RPCCall.cpp:54-76 | these members determine the request, whatever the order in which they were assigned |
| Rpc.RPCCall.Send | src/RPCCall.cpp:51-65 | one step of the specified run; the call enters the table under a fresh identifier exactly if the server is known; every outstanding call stays alive and in the table once, if this one was not outstanding already |
| Rpc.RPCCall.Notify | src/RPCCall.cpp:67-79 | one step of the specified run; nothing enters the table and the call is freed, which leaves the outstanding calls alive if it was not among them |
| Rpc.RPCCall.Broadcast | src/RPCCall.cpp:93-103 | one step of the specified run, which ends the run exactly if there is a null pointer; otherwise the call is freed and the table is as before |
| Rpc.RPCCall.HandleReply | src/RPCCall.cpp:81-91 | the callback runs with the result and may send more calls; then the call is freed, once |
| Rpc.CommandProcessor.SendRequest | src/CommandProcessor.cpp:44-60 | the line handed to the server is the stamped and signed request; an unknown server leaves a null pointer and nothing else |
| Rpc.CommandProcessor.SendBroadcast | src/CommandProcessor.cpp:62-70 | in whatever order the servers come: every one is handed the same signed line, unless there is a null pointer, which is then dereferenced |
| Rpc.CommandProcessor.GetReqSig | src/CommandProcessor.cpp:201-210 | the digest of the five texts; the members that were missing are inserted |
| Rpc.CommandProcessor.GetReplySig | src/CommandProcessor.cpp:212-219 | the digest of the three texts; afterwards the result is present |
| Rpc.CommandProcessor.CheckReply | src/CommandProcessor.cpp:72-87 | accepts exactly the replies without an error that have a string as identifier and the digest of their text as sig: `Conversation.OtherReplyIsDropped` and `Conversation.SignedReplyIsAccepted` say what that means for the table |
| Rpc.CommandProcessor.ProcessCommandReply | src/CommandProcessor.cpp:72-97 | one reply of the specified run; unless that ends in a broadcast to a null pointer, the table holds live calls only, as before |
| Rpc.CommandProcessor.HandleReply | src/CommandProcessor.cpp:99-113 | one delivered line of the specified run; an element of a batch that cannot be indexed throws, and those behind it are lost |
| Rpc.CommandProcessor.Fire | src/RPCCall.cpp:81-88 | a callback runs and what it asks for is sent while its own call is still in the table |
| Rpc.CommandProcessor.HandleRequest | src/CommandProcessor.cpp:115-189 | the branches of the source lead to the answer that `Admission.ObjectOutcome`, `Admission.OtherOutcome` and `Admission.ForgedIsRefused` determine; looking up an unknown method does not make it known |
| Rpc.CommandProcessor.Finish | src/CommandProcessor.cpp:169-179 | the signed result for a call, nothing for a notification |
| Rpc.CommandProcessor.RespError | src/CommandProcessor.cpp:191-199 | the error object, built up member by member |

## Left out

- Floating-point numbers: a `Float` stands for what strtod makes of a literal and keeps that literal, its printed text is a stand-in for the 15 digits of the source, and two are equal if their literals are; the theorems are about values without them.
- References into a document: the functions of `Access`, `Patch`, `Flatten` and `Unflatten` pass documents by value and return the whole changed document, so aliasing between two pointers into one document is not modelled.
- Patch operation `copy`: modelled as the code does it, which overwrites an array element where section 4.5 of RFC 6902 asks for an insertion, so nothing is claimed about its conformance; the order in which the two sides of that assignment are evaluated is not modelled.
- Dereferencing a null pointer: a run ends with it, and nothing is claimed about what the servers were handed by that broadcast or about anything after it.
- Running out of memory: only the exception for a negative array index is modelled, as that of an allocation that is too large.
- Failed assertions: adding below a primitive value ends in `assert(false)`, which is an error of its own here.
- Messages of exceptions, and the log.
- Reading from a stream: the scanner is modelled on a string buffer, where there is nothing to refill it from.
- The state table of the generated automaton: its states are grouped into loops and branches, which the comments name.
- Parser callbacks, iterators, allocators, conversions, copying and moving of values.
- Sockets, reconnection and the event loop: a line handed to a server and a line delivered are events, and nothing is claimed about which lines arrive.
- The natives for plugins, handles and contexts: a plugin is a function from the callbacks it has seen to the commands it gives; a handle is a flag that says whether it was freed.
- A call that is sent, or used for a notification, while it is outstanding: what `Rpc.RPCCall.Send`, `Rpc.RPCCall.Notify` and `Rpc.RPCCall.Broadcast` do is stated for it as for any other, but afterwards the table may hold a call twice or one that was freed, and nothing is claimed about replies then. In runs every call is sent once.
- A call that was freed is not used any more: its handle is gone, and the natives refuse it.
- `Rpc.CommandProcessor.Finish`: that a method finishes at most once is up to the handle of its context.
- HMAC and the generator of identifiers: a function of the text and the key, and a sequence without repetitions.
- The two constant replies for unparsable and invalid requests are given as values, not parsed from their text.
- Registering and removing methods and servers, configuration and start-up.

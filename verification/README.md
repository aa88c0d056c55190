# Verified model of janosh and its bundled jsoncons

janosh is a document store: JSON trees are flattened to the records of an ordered key
space, served to scripts in transactions, and read and written through a bundled copy of
jsoncons. This project models the parts of both whose correctness is least obvious and
proves what they promise, in Dafny 4.11. `dafny verify dfyconfig.toml` checks all of it.

* **Multi-precision integers** (`Words`, `DoubleWord`, `AddSubtract`, `Multiply`, `Divide`,
  `LongDivide`, `Shift`, `Bignum`, `Decimal`, `ByteForm`). Words are integers below 2^64 with explicit
  wrap-around; `Mag` is the number a sequence of words denotes and `Bignum.Value` the signed
  value. Every carry, borrow and correction loop is a loop here.
* **The JSON pipeline** (`JsonText`, `ParserSpec`, `JsonParser`, `ParserInvariant`,
  `JsonSerializer`, `RoundTripText`, `RoundTrip`, `JsonDecoder`, `JsonPipeline`).
  `ParserSpec` is the state machine of the parser taken one character at a time; the class
  `JsonParser` is the parser with its fields, loops, look-ahead and buffers, proved to do what
  the machine does. Events connect parser, decoder and serializer.
* **Object storage** (`ObjectStorage`, `LastWins`): the sorted vector and the
  order-preserving one, as refinements of a map from names to values.
* **The transaction queue** (`Transactions`): the monitor's critical sections as methods of a
  class, and all interleavings of threads through them.
* **The document store** (`StoreKeys`, `StoreLayout`, `StoreLoad`, `ArrayRemove`): the key
  encoding, what a loaded tree looks like in byte order, and removing an array element.
* **Base64** (`Base64`).

Conventions. `requires` clauses state what the code takes for granted. A C++ exception or a
failed `JSONCONS_ASSERT` is an error result, not a precondition, and so is behaviour that C++
leaves undefined, where it can be told before it happens. A statement of the form
"if and only if" in the table is an equivalence in the contract.

Results that differ from what one would expect of the code:

* `DDquotient` is exact only when its high word is below the divisor; on a tie the quotient
  2^64 (or 2^64 + 1) wraps to 0 (or 1). One step of the long division is right if and only if
  the top words do not tie (`Divide.DigitStep`), and a whole division by a divisor of several
  words is right if and only if no step ties (`LongDivision.DivideWords`,
  `Bignums.Bignum.DivideBy`). Ties happen: 2^191 divided by 2^127 + 1 comes out wrong
  (`Bignums.TieHappens`). The condition is arithmetic on the operands.
* When a divisor had to be scaled twice and the remainder is zero, scaling the remainder back
  reduces it to no words at all, and the loop over its words runs out of bounds; dividing a
  number of that kind by itself does it (`Bignums.SelfOverruns`, `Bignums.OverrunHappens`).
  Normalizing a divisor of several words whose top word is less than 2^32 shifts an int too far
  (`Bignums.Bignum.DivideBy`, `Bignums.ShiftTooFarHappens`).
* Multiplying zero by a negative machine integer gives a negative zero
  (`Bignums.Bignum.MulInt64`), and so does reading `-0` (`Decimal.Initialize`). A remainder of
  zero keeps the sign of a negative dividend (`Bignums.Bignum.DivideBy`).
* One marker at most would be expected above the containers on the parser's stack, for a name,
  a comment or a line end. There are two if and only if a line ends inside a block comment, and
  never more (`ParserInvariant.StackShape`); a slash, a star and a line end lead there
  (`ParserInvariant.TwoMarkers`).
* A comma after a number at the root is swallowed: a comma that ends a number does nothing else
  if and only if the number is at the root (`ParserInvariant.CommaAfterNumber`), so `1,` reads
  as `1` (`ParserInvariant.CommaSwallowed`).
* `merge_or_update` from an object to be moved from assigns to whatever member the lower bound
  hits. It is the update of the map if and only if every name of the source is in the object
  already or above all of its names (`ObjectStorage.SortedObject.MergeOrUpdateMoved`);
  `ObjectStorage.MovedGoesWrong` is an input for which it is not.
* Moving a cursor reads the key it lands on as a path, and a key with a space in it is none,
  although `load` writes such keys. Deleting a record lands on the next one, so removing an
  array element deletes and packs first and fails then, with too large a size left behind, when
  the first record behind the array has such a key. `ArrayRemove.Janosh.Remove` says exactly
  when a removal succeeds and what each failure leaves; `ArrayRemove.RemovalFails` is an input.
  An element whose value has an empty text is refused before anything is done, because asking
  for its size is an error.
* A path component that starts with a dot is stored as the directory mark whatever follows
  the dot. Which texts are stored as they are written is `StoreKeys.StoredAsWritten`; this is why the layout theorem asks for names that
  start with none of `.`, `#`, `$` and `*`.

## Model

| member | source | states |
|---|---|---|
| Words.CanonicalUnique | jsoncons/bignum.hpp:1384-1401 | A number has only one canonical sequence of words, so equality of words is equality of values. |
| Words.Trim | jsoncons/bignum.hpp:1384-1401 | Dropping leading zero words keeps the value and makes the words canonical. |
| DoubleWord.DDProduct | jsoncons/bignum.hpp:1094-1112 | The double-word product is the exact product, through half words, wrapping sums and carries. |
| DoubleWord.DDQuotient | jsoncons/bignum.hpp:1114-1154 | For a high word not above the divisor the guesses and correction loops give the quotient modulo 2^64, and the exact quotient if and only if the high word is below the divisor; for a larger one they still end. |
| AddSubtract.AddWords | jsoncons/bignum.hpp:368-394 | The carry loop, with its early end, gives words of exactly the sum; no carry is lost at the end. |
| AddSubtract.SubtractWords | jsoncons/bignum.hpp:396-421 | The borrow loop gives words of exactly the difference of a subtrahend that is not larger. |
| Multiply.ScaleWords | jsoncons/bignum.hpp:431-452 | The one-word loop gives exactly the product. |
| Multiply.ColumnsValue | jsoncons/bignum.hpp:454-516 | The columns that the multiplication loop sums up are together the product of the operands. |
| Multiply.MultiplyWords | jsoncons/bignum.hpp:483-511 | The column loop with its three-word accumulator gives exactly the product, for all operands. |
| Divide.NoWrap | jsoncons/bignum.hpp:1156-1171 | In every round of subtractmul, hi + carry is below 2^64: the sum never wraps. |
| Divide.SubtractMul | jsoncons/bignum.hpp:1156-1186 | For a digit that is right or one too large, subtractmul leaves the right digit and the exact remainder; for any other it still ends. |
| Divide.GuessIsClose | jsoncons/bignum.hpp:1114-1154 | For a normalized divisor of any length and a smaller top word, the quotient of the top words is the true digit or one more. |
| Divide.DigitStep | jsoncons/bignum.hpp:1289-1294 | One step of long division by a divisor of any length leaves dividend minus digit times divisor, which is below the divisor if and only if the top words do not tie; on a tie the digit is at most 1. |
| Divide.DivideByHalfWord | jsoncons/bignum.hpp:1252-1273 | Division by a half word, two half-word digits at a time, gives quotient and remainder. |
| LongDivision.DivideWords | jsoncons/bignum.hpp:1274-1295 | The main loop, for a normalized divisor of any length: quotient and remainder are exact if no round ties; if one does, the quotient is too small and the remainder not below the divisor, whatever the later rounds do. |
| LongDivision.OneWordNeverTies | jsoncons/bignum.hpp:1289-1294 | Divisors of one word never tie. |
| Shift.ShiftLeft | jsoncons/bignum.hpp:532-556 | A left shift by any count multiplies by the power of two, and is defined if and only if at most 31 bits are left beside whole words. |
| Shift.SecondScaling | jsoncons/bignum.hpp:1202-1206 | Multiplying a divisor whose second word exceeds its top word by 2^64 - 1 leaves a divisor with top bit set and second word not above the top word. |
| Shift.Normalize | jsoncons/bignum.hpp:1188-1208 | For divisors of any length normalize establishes the condition under which the digit guess is close, and scales dividend and divisor by one factor, which the divisor determines; its shift is defined if and only if the top word is more than a half word. |
| Shift.ShiftRight | jsoncons/bignum.hpp:558-590 | A right shift by any count divides by the power of two, rounding down, exactly where its shifts are defined. |
| Bignums.Bignum.Reduce | jsoncons/bignum.hpp:1384-1401 | Reduction keeps the value and ends canonical, never with a negative zero. |
| Bignums.Bignum.Compare | jsoncons/bignum.hpp:1064-1092 | compare agrees with the order of the integers on canonical numbers. |
| Bignums.Bignum.AddAssign | jsoncons/bignum.hpp:368-394 | The mutually recursive += terminates and adds, keeping canonical form, also with itself as operand. |
| Bignums.Bignum.SubAssign | jsoncons/bignum.hpp:396-421 | The mutually recursive -= terminates and subtracts, keeping canonical form, also with itself as operand. |
| Bignums.Bignum.MulInt64 | jsoncons/bignum.hpp:423-429 | Multiplication by a signed machine integer is exact; the result is canonical and no negative zero if and only if the factor is not negative or the number was not zero. |
| Bignums.MultiplyMagnitudes | jsoncons/bignum.hpp:459-511 | All paths of the multiplication, the one-by-one shortcut with its overflow test included, give the exact product. |
| Bignums.OverflowShows | jsoncons/bignum.hpp:462-472 | Dividing a wrapped product back gives the other factor if and only if the product did not overflow. |
| Bignums.Bignum.MulAssign | jsoncons/bignum.hpp:454-516 | Signed multiplication is exact for all operands, also with itself as operand. |
| Bignums.Unscale | jsoncons/bignum.hpp:1210-1224 | Scaling dividend and divisor changes no quotient and scales the remainder, so dividing it back is exact. |
| Bignums.DivideMagnitudes | jsoncons/bignum.hpp:1244-1301 | Every path of divide, for divisors of any length: which path ends undefined, which overruns, and that quotient and remainder are right if and only if no round ties. |
| Bignums.Bignum.DivideBy | jsoncons/bignum.hpp:1226-1302 | Division by any divisor: quotient rounded toward zero and remainder below the divisor with dividend = quotient times divisor plus remainder, if and only if no round ties, also when quotient or remainder is the dividend's own object; exactly when it is undefined or overruns; a zero divisor is an error that changes nothing. |
| Bignums.TieHappens | jsoncons/bignum.hpp:1289-1294 | 2^191 divided by 2^127 + 1 ties, so its quotient comes out wrong. |
| Bignums.SelfOverruns | jsoncons/bignum.hpp:1210-1217 | A number of several words divided by itself, with the remainder wanted, overruns if and only if it is scaled twice. |
| Bignums.OverrunHappens | jsoncons/bignum.hpp:1202-1206 | 2^127 + 2^64 - 1 divided by itself overruns. |
| Bignums.ShiftTooFarHappens | jsoncons/bignum.hpp:544-545 | Dividing any larger number, or itself, by 2^64 shifts too far. |
| ByteForm.Power | jsoncons/bignum.hpp:1018-1033 | power by repeated squaring is x to the n. |
| Decimal.BufferIsLargeEnough | jsoncons/bignum.hpp:777-782 | The buffer size computed from the word count has room for every digit and a sign. |
| Decimal.WriteChunk | jsoncons/bignum.hpp:815-822 | The digit loop writes the digits of a chunk leftward, ends early with the number, and never reaches the front of the buffer. |
| Decimal.Dump | jsoncons/bignum.hpp:777-830 | Decimal printing yields a minus for negative numbers and the digits of the magnitude. |
| Decimal.PlainDigits | jsoncons/bignum.hpp:777-830 | The printed digits have no leading zero; zero prints as 0. |
| Decimal.Initialize | jsoncons/bignum.hpp:145-174 | The reader skips white space and a minus and folds all further characters, digits or not, each a signed byte; it ends in a negative zero if and only if there is a minus and the rest is worth zero. |
| Decimal.TextRoundTrip | jsoncons/bignum.hpp:145-174 | Reading the printed form of any sign and magnitude gives them back. |
| Decimal.DumpAndInitialize | jsoncons/bignum.hpp:145-174 | A number printed and read again is the same object content: sign and every word. |
| Decimal.TextInjective | jsoncons/bignum.hpp:777-830 | No two numbers print alike. |
| ByteForm.Dump | jsoncons/bignum.hpp:747-775 | The byte form is the sign and the shortest big-endian bytes, of -1 - n for a negative n. |
| ByteForm.FromBytes | jsoncons/bignum.hpp:200-222 | The byte constructor computes the integer that a sign and any bytes stand for. |
| ByteForm.ByteRoundTrip | jsoncons/bignum.hpp:200-222 | Rebuilding from the byte form gives back every integer (section 2.4.2 of RFC 7049). |
| ByteForm.ShortestBytes | jsoncons/bignum.hpp:747-775 | The byte form has no leading zero byte except for zero. |
| ByteForm.ToVariant | jsoncons/json.hpp:762-780 | A bignum put into a JSON value is stored as the kind and bytes that stand for its value. |
| ByteForm.AsBignum | jsoncons/json.hpp:1055-1075 | Reading a bignum from a JSON value: the stored integer, or the error for a value of another kind. |
| ByteForm.VariantRoundTrip | jsoncons/json.hpp:762-780 | Every integer put into a JSON value comes back from it. |
| ByteForm.VariantStable | jsoncons/json.hpp:1055-1075 | A stored bignum read and stored again is unchanged if and only if its bytes are not empty and have no leading zero byte. |
| ParserSpec.RunAppend | jsoncons/json_parser.hpp:477-1415 | The machine on a text in two parts is the machine on the parts one after the other. |
| ParserSpec.LiteralAhead | jsoncons/json_parser.hpp:1417-1516 | Comparing a whole literal at once decides as the literal's states do one character at a time, errors included. |
| JsonParsing.JsonParser.EndObject | jsoncons/json_parser.hpp:335-371 | A right brace pops, reports, and leads to a comma or the end of the document, with the error of each wrong parent. |
| JsonParsing.JsonParser.EndArray | jsoncons/json_parser.hpp:388-423 | The same for a right bracket. |
| JsonParsing.JsonParser.ParseString | jsoncons/json_parser.hpp:1960-2411 | The string loop with its buffer and resumable escape states does what the machine does on the unread input. |
| JsonParsing.JsonParser.ParseNumber | jsoncons/json_parser.hpp:1519-1958 | The number loop with its gotos does what the machine does on the unread input. |
| JsonParsing.JsonParser.ParseLiteral | jsoncons/json_parser.hpp:1417-1516 | The look-ahead for true, null and false does what the machine does on the unread input. |
| JsonParsing.JsonParser.ParseSome | jsoncons/json_parser.hpp:477-1415 | parse_some terminates and leaves the fields, the events and the error code of the machine on the whole buffer. |
| JsonParsing.JsonParser.EndParse | jsoncons/json_parser.hpp:2477-2512 | end_parse completes a number at the root and tells an unexpected end as the machine does. |
| JsonParsing.ParseChunks | jsoncons/json_parser.hpp:2519-2529 | Chunk independence: however a text is cut into buffers, the error code and the events, up to repeated begin_document, are those of the whole text; no assertion of the source fails. |
| ParserInvariant.StepSound | jsoncons/json_parser.hpp:477-1415 | Every character keeps the invariant: root at the bottom, the depth counting the open containers, every pop and parent lookup safe, and the events exactly those of the open structures. |
| ParserInvariant.ParseSound | jsoncons/json_parser.hpp:320-423 | For every text the reachable state satisfies the invariant; success means that everything is closed and the events are one whole document or none; failure is never a failed assertion and its events are a prefix of a document. |
| ParserInvariant.StackShape | jsoncons/json_parser.hpp:2662-2746 | The stack is root and containers, whose number the nesting depth is, and above them exactly the markers of the state: none, one for a member name, a comment or a line end, and two if and only if a line ends inside a block comment. |
| ParserInvariant.ReachedShape | jsoncons/json_parser.hpp:477-1415 | The stack has this shape after any text. |
| ParserInvariant.TwoMarkers | jsoncons/json_parser.hpp:1363-1370 | Two markers are reached by a slash, a star and a line end. |
| ParserInvariant.CommaAfterNumber | jsoncons/json_parser.hpp:1722-1729 | A comma that ends a number does nothing but end it if and only if the number is at the root. |
| ParserInvariant.CommaSwallowed | jsoncons/json_parser.hpp:1722-1729 | The text 1 and a comma reads as the text 1. |
| JsonPrinting.WriteValue | jsoncons/json_serializer.hpp:305-491 | Following the events of any value in any context of the count stack writes one separator if one is due and the value's compact text, and counts one value. |
| JsonPrinting.JsonSerializer.EscapeString | jsoncons/json_serializer.hpp:198-294 | The escape loop appends the escaped text, under either option. |
| JsonPrinting.JsonSerializer.DumpFragment | jsoncons/json.hpp:2737-2807 | Dumping a value into the serializer writes its compact text in place. |
| JsonPrinting.Dump | jsoncons/json.hpp:2808-2813 | A whole value is printed as its compact text. |
| RoundTripText.UnicodeBack | jsoncons/json_serializer.hpp:241-281 | A character escaped as one unit or as a surrogate pair reads back as the character (section 7 of RFC 8259). |
| RoundTripText.StringBack | jsoncons/json_parser.hpp:1960-2411 | Every text survives escaping and parsing, under either option. |
| RoundTripText.NumberRun | jsoncons/json_parser.hpp:1519-1958 | Every number of the grammar of section 6 of RFC 8259 without plus sign is read whole, and its kind is recognized. |
| RoundTrip.ValueBack | jsoncons/json_parser.hpp:477-1415 | The printed form of any value, read at any place for a value, sends exactly the value's events and returns to the same stack. |
| RoundTrip.PrintThenParse | jsoncons/json_serializer.hpp:305-491 | Parsing the compact text of any value succeeds with exactly the events of a document of that value. |
| JsonDecoding.NormalStays | jsoncons/json_decoder.hpp:192-218 | A value whose objects have strictly increasing names is left as it is by decoding. |
| JsonDecoding.Replay | jsoncons/json_decoder.hpp:114-218 | From any stack in which a value has a place, replaying the events of a value places exactly its normal form and restores the offsets. |
| JsonDecoding.DecodeDocument | jsoncons/json_decoder.hpp:152-168 | A whole document decodes to its value from any earlier state of the decoder. |
| JsonDecoding.JsonDecoder.PopStructure | jsoncons/json_decoder.hpp:175-218 | Closing a structure moves the items above it into it, through the bulk insert for an object, and drops its offset. |
| JsonDecoding.JsonDecoder.HandleAll | jsoncons/json_decoder.hpp:152-320 | The handlers do to the fields what the stack machine does with the events. |
| JsonPipeline.FollowAll | jsoncons/json_decoder.hpp:114-218 | No well-formed prefix of a stream of events ever meets an undefined step of the decoder. |
| JsonPipeline.AcceptedDecodes | jsoncons/json_decoder.hpp:114-218 | Whatever text the parser accepts, the decoder ends valid with a value unless the text was blank. |
| JsonPipeline.RoundTrip | jsoncons/json_serializer.hpp:198-491 | Printing, parsing and decoding gives back the value: its normal form always, the value itself when its objects have strictly increasing names. |
| JsonPipeline.PrintInjective | jsoncons/json_serializer.hpp:198-491 | No two such values have the same text. |
| JsonPipeline.ReadChunks | jsoncons/json_parser.hpp:2519-2529 | Parser and decoder on a text in any pieces read what the specification reads from the whole text. |
| JsonPipeline.PrintAndRead | jsoncons/json_parser.hpp:2519-2529 | Printed by the serializer, cut into any pieces and read by parser and decoder, a value comes back. |
| JsonPipeline.CutAny | jsoncons/json_parser.hpp:2519-2529 | Any pieces of a text are a cut of it, so every way of handing a text over is covered. |
| ObjectStorage.SortedObject.Find | jsoncons/json_structures.hpp:687-694 | find gives the position of a name with the map's value, or the end if and only if the map has no such name. |
| ObjectStorage.SortedObject.InsertOrAssign | jsoncons/json_structures.hpp:886-913 | Sorted names are kept and the map is updated; inserted tells whether the name was new. |
| ObjectStorage.SortedObject.InsertOrAssignHinted | jsoncons/json_structures.hpp:1122-1155 | The hinted form has the same effect for every valid hint, on the map and so on the vector. |
| ObjectStorage.SortedObject.TryEmplace | jsoncons/json_structures.hpp:946-972 | A name that is there keeps its value, otherwise it is added, sorted. |
| ObjectStorage.SortedObject.TryEmplaceHinted | jsoncons/json_structures.hpp:1002-1036 | The hinted form has the same effect for every valid hint, on the map and so on the vector. |
| ObjectStorage.SortedUnique | jsoncons/json_structures.hpp:1122-1155 | Sorted storages with one map are equal member by member. |
| ObjectStorage.SortedObject.Erase | jsoncons/json_structures.hpp:725-733 | Erasing by name removes exactly that entry and keeps names sorted. |
| ObjectStorage.SortedObject.Insert | jsoncons/json_structures.hpp:735-749 | The bulk insert leaves strictly sorted names and the map in which the last of each name counts. |
| ObjectStorage.SortedObject.Merge | jsoncons/json_structures.hpp:753-759 | Merging a copy adds the entries whose names are new; merging an object with itself changes nothing. |
| ObjectStorage.SortedObject.MergeHinted | jsoncons/json_structures.hpp:780-786 | Merging with a moving hint has the same effect. |
| ObjectStorage.SortedObject.MergeOrUpdate | jsoncons/json_structures.hpp:819-825 | Merging or updating with a copy lets the source's entries win. |
| ObjectStorage.SortedObject.MergeOrUpdateMoved | jsoncons/json_structures.hpp:827-844 | The moving form is the update of the map if and only if every name of the source is there already or above all names. |
| ObjectStorage.SortedObject.MergeOrUpdateMovedHinted | jsoncons/json_structures.hpp:854-885 | The hinted moving form has the same effect for every valid hint. |
| ObjectStorage.MovedMap | jsoncons/json_structures.hpp:827-844 | What is left is sorted and has the updated map if and only if every name fits. |
| ObjectStorage.MovedGoesWrong | jsoncons/json_structures.hpp:838-841 | The value of a new first name goes to the name behind it. |
| ObjectStorage.StableSortKeepsMap | jsoncons/json_structures.hpp:744-745 | The stable sort orders the names and keeps the map, because equal names keep their order. |
| ObjectStorage.UniqueKeepsMap | jsoncons/json_structures.hpp:746-748 | Keeping the last of neighbours with one name leaves strictly increasing names and the same map. |
| LastWins.LastWinsUnique | jsoncons/json_structures.hpp:312-381 | The in-place compaction terminates and leaves at the front exactly the members whose names do not come again. |
| LastWins.FindDups | jsoncons/json_structures.hpp:323-340 | Sorting and comparing neighbours finds, for each name, one member fewer than there are. |
| LastWins.LastPositions | jsoncons/json_structures.hpp:312-381 | What is left is the members at exactly the last positions of their names, in increasing order of these positions. |
| LastWins.LastOnlyNames | jsoncons/json_structures.hpp:312-381 | No name is repeated and none is lost. |
| LastWins.StoragesAgree | jsoncons/json_structures.hpp:1454-1466 | Bulk insertion into the sorted and into the order-preserving storage yields the same map. |
| LastWins.OrderedObject.Insert | jsoncons/json_structures.hpp:1454-1466 | The order-preserving bulk insert leaves the last of each name, in order. |
| Transactions.LuaScript.Enter | src/lua_script.cpp:659-708 | The first pass through performOpen opens at once, or queues the thread and waits, as the critical section is specified. |
| Transactions.LuaScript.Close | src/lua_script.cpp:710-743 | performClose releases the transaction and the front of the queue, or is an error when nothing is open. |
| Transactions.ActionKeeps | src/lua_script.cpp:659-765 | Every atomic step of every thread keeps the protocol's invariant. |
| Transactions.OneTransaction | src/lua_script.cpp:659-765 | In every interleaving the thread of an explicit transaction is the front of the queue and the current one, no two threads are in a transaction, and opens and closes of the database alternate with requests only in between. |
| Transactions.FirstComeFirstServed | src/lua_script.cpp:667-696 | In every interleaving explicit opens are granted in the order in which they were asked for, each exactly once. |
| Transactions.FrontProceeds | src/lua_script.cpp:667-729 | No wake-up is lost: with nothing open and threads queued, at most two steps lead to the grant of the front thread. |
| Transactions.NoOvertaking | src/lua_script.cpp:667-729 | While a thread is queued its place changes only at a close, by one place forward. |
| StoreKeys.BitsBack | src/component.cpp:41-48 | Decoding a key's binary digits gives the index that was encoded. |
| StoreKeys.IndexOrder | src/component.cpp:41-48 | Byte order on index keys is the order of the indexes. |
| StoreKeys.IndexComponent | src/component.cpp:17-39 | An index written with # and its stored key make the same component. |
| StoreKeys.KeyStays | src/component.cpp:17-39 | A component read from a stored key has that key. |
| StoreKeys.StoredAsWritten | src/component.cpp:17-39 | A component is stored under the text it is made of if and only if the text has no meaning of its own. |
| StoreKeys.Between | src/path.cpp:81-100 | Whatever lies between two keys with one beginning has that beginning. |
| StoreLoad.Path.Rebuild | src/path.cpp:81-100 | The key is the components' keys behind slashes; it is an error if and only if a component contains one. |
| StoreLoad.Path.Update | src/path.cpp:102-139 | A text is taken as a path if and only if it is empty or starts with a slash, has no space, and all parts are legal components. |
| StoreLoad.PathFromKey | src/path.cpp:102-139 | A path's own key can be read back if and only if there is no space in it, and then the path has that key. |
| StoreLoad.ReadTwice | src/path.cpp:102-139 | What any text is read as is a path whose key reads as itself. |
| StoreLoad.ReadChild | src/path.cpp:102-139 | A child's key can be read if and only if its directory's can and its own component can. |
| StoreLoad.LoadedReadable | src/janosh.cpp:1177-1226 | The records of a loaded value can all be read again if and only if no name in it has a space. |
| StoreLayout.WriteLaysOut | src/janosh.cpp:1196-1226 | Written where nothing was, an ordinary tree is laid out: every value one record, every directory a first record with kind and size, no record that belongs to nothing, at every depth. |
| StoreLayout.DirFirst | src/component.cpp:17-39 | A directory's record comes before everything under its children. |
| StoreLayout.ElementOrder | src/component.cpp:41-48 | Everything under an array element comes before everything under a later one. |
| StoreLayout.Contiguous | src/path.cpp:81-139 | The records of a subtree are neighbours in byte order. |
| StoreLayout.SizeCounts | src/janosh.cpp:1196-1226 | The recorded size of a directory is the number of different children that have records under it. |
| StoreLoad.Loader.Load | src/janosh.cpp:1172-1226 | load pushes and pops components and writes exactly the records of the tree, in their order, leaving the path as it was. |
| StoreLoad.LoadInto | src/janosh.cpp:1172-1226 | After loading a null-free value with ordinary, unique names into a free place, the store holds its tree laid out there, and nothing else has changed. |
| ArrayRemove.Janosh.Fetch | src/record.cpp:8-37 | fetch jumps, reads the path it lands on, which fails for a key that is no path even if it is another record's, and the text if the path is the one; otherwise it keeps its path and is marked as missing. |
| ArrayRemove.Janosh.Step | src/record.cpp:166-176 | step moves to the next record and reads its path and text, and fails if and only if one of them cannot be read. |
| ArrayRemove.Janosh.RemoveAt | src/record.cpp:116-127 | Removing through a cursor deletes exactly its record and moves on to the next key, and fails, after the deletion, if that key cannot be read as a path. |
| ArrayRemove.Janosh.CopyValue | src/janosh.cpp:966-997 | Copying a value into a free place of an array adds the element and counts it, or fails and changes nothing if and only if looking for the place lands on a key that cannot be read. |
| ArrayRemove.Janosh.PackOne | src/janosh.cpp:757-780 | One round of packing keeps the values in order, with exactly one free place that moves on, and the cursor on the next value; only the last round can fail, after its deletion, on the key behind the array. |
| ArrayRemove.Janosh.Remove | src/janosh.cpp:715-790 | Removing one value of a dense array of values succeeds if and only if its text is not empty and the first record behind the array has a readable key (and, for the only value, a readable text); then the survivors are left in their order at the indexes from 0 on, the size one smaller and the rest of the store as it was. Each failure's store is stated: unchanged, or packed with too large a size, which is no array. |
| ArrayRemove.RemovalFails | src/janosh.cpp:732-741 | After loading an array beside a member whose name has a space, the array is there and the record behind it cannot be read, so removals fail after deleting. |
| ArrayRemove.SpaceFreeLands | src/record.cpp:116-127 | After loading a value without spaces in its names, no removal from a longer array fails at the record behind it. |
| ArrayRemove.TreeHolds | src/janosh.cpp:1212-1226 | An array of values is laid out if and only if the store holds its slots, its size, and nothing else under it. |
| Base64.EncodeBase64 | jsoncons/jsoncons_utilities.hpp:581-637 | The encoding loop gives the text of the bytes, with fill characters for the standard alphabet and without for the url one. |
| Base64.DecodeBase64 | jsoncons/jsoncons_utilities.hpp:651-720 | The decoding loop gives the bytes of the letters before the first fill character, and refuses any other character among them. |
| Base64.EncodeThenDecode | jsoncons/jsoncons_utilities.hpp:651-720 | Decoding the text of any bytes gives the bytes (section 4 of RFC 4648). |
| Base64.EncodedLength | jsoncons/jsoncons_utilities.hpp:581-637 | The padded text has four characters for every three bytes begun; the unpadded one leaves out the fill. |

## Left out

- Shift.ShiftLeft: what a compiler makes of an undefined shift; a mask of 31 bits, which C++ leaves undefined by one, counts as defined.
- Bignums.Bignum.DivideBy: what quotient and remainder hold after an undefined shift or an overrun, and their values after a tie beyond their being wrong.
- Bignums.Bignum.MulAssign: asks for an operand whose length fits a `size_t`, as every real one does.
- Decimal.Dump: asks for a buffer length that fits an `int`, in which the source computes it.
- Decimal.Initialize: for a text of white space only the source looks at the character past the end; taken as no minus. Characters of a text are bytes, and negative from 128 on; platforms whose char is unsigned are not modelled.
- ByteForm.Power: asks that the words of the result can be counted in a `size_t`.
- `%=`, `sqrt`, bit operations and conversions to floating point.
- Word storage of bignums and of JSON values: allocation, placement new, capacity and the in-place update of the word buffer; the words are a sequence that the methods assign. The sign of numbers made from unsigned integers, which the constructors leave unset, is taken as positive, and negative zero is excluded as an operand.
- JsonParsing.ParseChunks: characters are Unicode scalar values, so a UTF-8 sequence cut by a buffer border is not covered; for ASCII text nothing is left out.
- JsonParsing.JsonParser.ParseNumber: numbers stay texts; conversion to machine integers, bignums and doubles, the precision counters and overflow are not modelled, nor a decimal point other than `.`.
- RoundTripText.NumberRun: no plus sign in an exponent; the parser drops it, so the text it reports has none.
- ParserSpec.LiteralAhead: line and column counters, custom error handlers, NaN and infinity replacements.
- `check_done`, which looks at what is left after the document; exact acceptance of the JSON grammar, which the parser does not claim.
- JsonPrinting.WriteValue: indentation, line splitting, byte strings, bignum formats.
- JsonDecoding.Replay: move semantics and the allocators.
- ObjectStorage.SortedObject.Merge: the form of `merge` that moves from its source. `std::lower_bound`, `std::stable_sort` and `std::unique` are modelled by what they compute.
- LastWins.LastWinsUnique: `std::sort` is taken as a stable sort; only names of its result are used.
- Transactions.LuaScript.Enter: callbacks that throw, a thread that opens twice, and a close by another thread than the opener; the request texts kept beside the thread ids.
- StoreLoad.Loader.Load: the count it returns, tracking and logging, and the boost number formats beyond plain decimal digits.
- StoreKeys.MakeComponent: signs in the text of an index.
- ArrayRemove.Janosh.Remove: elements that are directories, ranges, and `remove` without packing; record objects are values here, so two record objects sharing one cursor are not modelled; keys in the store are keys that paths have, as all the store's own operations write, so none has a component with a leading dot or number sign; signs in the recorded size.
- Store operations `shift`, `move`, `patch`, `append`, `recurseDirectory` and `recurseValue`; sockets, Kyoto Tycoon transport, Lua bindings, websockets, compression, command line.

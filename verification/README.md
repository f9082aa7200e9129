# Verified model of ShareNotes and the libraries it carries

This project models the algorithms in the ShareNotes repository that carry an argument, and proves
what they compute. `dafny verify dfyconfig.toml` checks all of it.

| part | files |
|---|---|
| picojson, the JSON parser and printer | `JsonValue`, `JsonInput`, `JsonStrings`, `JsonBits`, `JsonUnicode`, `JsonNumbers`, `JsonParser`, `JsonGrammar`, `JsonAcceptance`, `JsonSerializer`, `JsonRoundTrip`, `JsonCanonical`, `JsonNullContext`, `JsonEntry` |
| the go-sqlite3 driver | `Aggregates`, `Scripts`, `ScriptChains`, `SemicolonScripts`, `Binding`, `Lifecycle`, `Conversions` |
| ShareNotes itself | `Linkifier`, `RateLimiter`, `RandomText` |
| the xurls path grammar | `Regex`, `PathGrammar` |
| shared | `Bytes`, `Wrappers` |

Each loop of the sources is a method with the source's branches. It is proved against a function on
values, and the properties are lemmas about those functions. What the functions take for granted,
such as which bytes are spaces or how a byte is printed, is told once more in plain constants.

* **picojson.** The stream is a class with the source's five fields. What a caller can still read,
  with what the latest read left behind, is a *tape*; with the data it fixes every field. The Read
  functions say which value and which tape come of any unread bytes. They accept exactly the texts
  of a grammar of concrete syntax trees, and the printer writes texts of that grammar.
* **Driver.** SQLite is a parameter: an engine whose tails shrink, aggregate contexts that start
  zeroed and are not used after they are done, and parameter slots that are written one at a time.
  What Exec and Query do is told by the chain of a script: each text the tail of the one before.
  `SemicolonScripts` shows by a small engine that what is assumed of prepare can be met.
* **ShareNotes.** The links a text holds, the clock readings and the random words are parameters.
* **xurls.** The Unicode classes are parameters; that no bracket belongs to one is an assumption.

## What the proofs show about the code

* The grammar is section 2 to 7 of RFC 8259 with these differences, which follow the code: a number
  is whatever run of number bytes strtod reads whole, so leading zeros and a missing integer part
  pass; any byte from 0x20 up may stand for itself in a string, well-formed UTF-8 or not; and an
  escaped lone surrogate is rejected.
* 0 and -0 are equal and print differently, so printed text decides equality for a tree exactly when
  the tree holds no zero (`TextDecidesEqualityIffZeroFree`).
* The iterator returned after a number that something follows has passed one byte of it
  (`ReturnedCursor`).
* The linkifier copies a byte unchecked after each link. It ends exactly on texts in which the links
  occur with a byte between any two (`EndsIffGapped`), and so never on a host name with an IPv6
  address right behind it (`HostThenAddressNeverEnds`).
* It supplies http:// exactly when a link contains none of nine texts. A mail address is linked to a
  host, and an address in a query leaves the link relative (`TargetStartsWithSchemeIff`,
  `MailtoLeadsToHost`, `QueryWithSchemeStaysRelative`).
* Query prepares and binds all statements of a script and never steps any but the last. Exec and
  Query leave a statement handle open exactly when they report that arguments are missing. Query
  does so whenever it is given fewer than the statements have parameters; Exec only if it is given
  some (`ExecLeaksIffTooFew`, `QueryLeaksIffTooFew`). Given none, Exec runs the script with nothing
  bound and succeeds (`MissingArgumentsPass`).
* `$1`, `$2`, ... name the arguments of those numbers only if the order of first occurrence is its
  own inverse (`NamesMeanNumbersIffInvolution`); names mixed with other parameters never bind
  (`BindSucceedsIff`).
* A statement that is closed after its connection is never finalized
  (`FinalizedOnceIffClosedInTime`).
* An empty byte slice returned from a function comes back as NULL, which the converter for slices
  refuses, and text is cut at a zero byte (`ReturnsIffSurvives`).

## Model

| member | source | states |
|---|---|---|
| `JsonInput.Input.GetC` | src/github.com/mattn/go-sqlite3/_example/mod_vtable/picojson.h:368-382 | yields the next unread byte or -1, and keeps the stream invariant: the latest byte, the pushback flag, and a line number of one plus the newlines read before the latest byte |
| `JsonInput.Input.UngetC` | src/github.com/mattn/go-sqlite3/_example/mod_vtable/picojson.h:383-388 | puts the latest byte back in front; its precondition, met by every caller, is that no byte is pushed back twice |
| `JsonInput.Input.SkipWs` | src/github.com/mattn/go-sqlite3/_example/mod_vtable/picojson.h:391-399 | leaves the unread bytes from the first one that is no space, pushed back if there is one |
| `JsonInput.SkipsLeadingSpaces` | src/github.com/mattn/go-sqlite3/_example/mod_vtable/picojson.h:391-399 | what is skipped is exactly the leading spaces, tabs, newlines and carriage returns |
| `JsonInput.Input.ExpectByte` | src/github.com/mattn/go-sqlite3/_example/mod_vtable/picojson.h:400-407 | finds the byte after spaces or leaves it pushed back |
| `JsonInput.Input.MatchBytes` | src/github.com/mattn/go-sqlite3/_example/mod_vtable/picojson.h:408-418 | compares byte by byte and leaves the first mismatch pushed back; an empty pattern matches and moves nothing |
| `JsonInput.MatchIsPrefix` | src/github.com/mattn/go-sqlite3/_example/mod_vtable/picojson.h:408-418 | matching succeeds iff the pattern is a prefix of what is unread, and consumes exactly it |
| `JsonInput.MatchStops` | src/github.com/mattn/go-sqlite3/_example/mod_vtable/picojson.h:408-418 | otherwise it stops at the first byte that differs, pushed back, or at the end |
| `JsonInput.UnreadIsPushbackThenTail` | src/github.com/mattn/go-sqlite3/_example/mod_vtable/picojson.h:360-390 | what is unread is the pushed-back byte, if any, followed by the bytes from the iterator on |
| `JsonInput.TapeFixesState` | src/github.com/mattn/go-sqlite3/_example/mod_vtable/picojson.h:360-390 | the data and the tape left determine position, latest byte, pushback flag and line number |
| `JsonInput.LineCountsNewlines` | src/github.com/mattn/go-sqlite3/_example/mod_vtable/picojson.h:375-381 | the line is one more than the newlines among the bytes read before the latest one |
| `JsonStrings.ParseQuadHex` | src/github.com/mattn/go-sqlite3/_example/mod_vtable/picojson.h:421-440 | reads four hex digits or stops at the first byte that is none, pushed back |
| `JsonStrings.HexDigitsAreThese` | src/github.com/mattn/go-sqlite3/_example/mod_vtable/picojson.h:421-440 | the hex digits are 0 to 9 and a to f in either case, each worth its place |
| `JsonStrings.QuadStops` | src/github.com/mattn/go-sqlite3/_example/mod_vtable/picojson.h:421-440 | with fewer than four hex digits it stops at the first byte that is none, pushed back, or at the end |
| `JsonStrings.ParseCodePoint` | src/github.com/mattn/go-sqlite3/_example/mod_vtable/picojson.h:442-481 | decodes a quad or a surrogate pair to the bytes pushed, or stops where the source does |
| `JsonStrings.ShortEscapesAreThese` | src/github.com/mattn/go-sqlite3/_example/mod_vtable/picojson.h:497-505 | there are eight short escapes, with the bytes they stand for |
| `JsonStrings.BodyStops` | src/github.com/mattn/go-sqlite3/_example/mod_vtable/picojson.h:483-519 | where a string body stops: at a control byte, pushed back, behind a letter that is no escape, at the end, or where its escape does |
| `JsonGrammar.SurrogateStops` | src/github.com/mattn/go-sqlite3/_example/mod_vtable/picojson.h:442-462 | where an escape with a lone or reversed surrogate stops |
| `JsonStrings.ParseString` | src/github.com/mattn/go-sqlite3/_example/mod_vtable/picojson.h:483-519 | the loop over a string body agrees with StringBody on result and stream |
| `JsonStrings.SkipString` | src/github.com/mattn/go-sqlite3/_example/mod_vtable/picojson.h:676-689 | the same loop with the dummy string of the null context |
| `JsonBits.BitsOfCodePoint` | src/github.com/mattn/go-sqlite3/_example/mod_vtable/picojson.h:464-479 | the bytes that the source computes with shifts, masks and ors are those of PushedBytes |
| `JsonBits.BitsOfPair` | src/github.com/mattn/go-sqlite3/_example/mod_vtable/picojson.h:461-462 | what the source makes of a surrogate pair with a shift, a mask and an or is Combine |
| `JsonUnicode.PushedBytesAreUtf8` | src/github.com/mattn/go-sqlite3/_example/mod_vtable/picojson.h:464-479 | the bytes pushed for a scalar value are the well-formed sequence that RFC 3629 decodes to it |
| `JsonUnicode.EscapesDecode` | src/github.com/mattn/go-sqlite3/_example/mod_vtable/picojson.h:442-519 | a string of escapes, in any hex case, is accepted and what is read decodes as UTF-8 to the characters escaped |
| `JsonUnicode.EveryTextHasEscapes` | src/github.com/mattn/go-sqlite3/_example/mod_vtable/picojson.h:447-463 | every sequence of scalar values has such a spelling, with surrogate pairs above U+FFFF |
| `JsonUnicode.SurrogatesMustPair` | src/github.com/mattn/go-sqlite3/_example/mod_vtable/picojson.h:447-460 | an escape is accepted iff it is no surrogate or a high one followed by the escape of a low one |
| `JsonUnicode.LoneSurrogateRejected` | src/github.com/mattn/go-sqlite3/_example/mod_vtable/picojson.h:447-460 | a string body that starts with a lone or reversed surrogate is rejected |
| `JsonParser.ScanNumber` | src/github.com/mattn/go-sqlite3/_example/mod_vtable/picojson.h:559-570 | takes the longest run of number bytes and pushes back the byte behind it |
| `JsonNumbers.NumberTokenIsMaximal` | src/github.com/mattn/go-sqlite3/_example/mod_vtable/picojson.h:561-570 | a number token holds only number bytes and no further one follows |
| `JsonNumbers.NumberBytesAreThese` | src/github.com/mattn/go-sqlite3/_example/mod_vtable/picojson.h:563-565 | number bytes are the digits, both signs, the point and the letter e in either case |
| `JsonNumbers.NumberIffStrtodForm` | src/github.com/mattn/go-sqlite3/_example/mod_vtable/picojson.h:571-573 | the test on a token passes iff it is empty or an optional sign, digits with an optional fraction, and an optional exponent |
| `JsonNumbers.IntegersAreExact` | src/github.com/mattn/go-sqlite3/_example/mod_vtable/picojson.h:571-573 | a token is read as the integer m iff m is below 2^53 and, once the exponent and the places of the fraction are made up for with zeros, the digits of both are the same number; so 1.0 is 1 and 1e2 is 100 |
| `JsonParser.ParseNumber` | src/github.com/mattn/go-sqlite3/_example/mod_vtable/picojson.h:559-574 | yields the value of the whole token or fails; where no number byte is next the token is empty and the value 0 |
| `JsonParser.ParseArray` | src/github.com/mattn/go-sqlite3/_example/mod_vtable/picojson.h:521-536 | the array loop under the default context agrees with ReadArray on value and stream, and ends because the unread bytes shrink |
| `JsonParser.ParseObject` | src/github.com/mattn/go-sqlite3/_example/mod_vtable/picojson.h:538-557 | the object loop under the default context agrees with ReadObject on value and stream |
| `JsonParser.ParseValue` | src/github.com/mattn/go-sqlite3/_example/mod_vtable/picojson.h:576-611 | the dispatch on the first byte agrees with ReadValue on value and stream, for every input |
| `JsonGrammar.ReadsUnits` | src/github.com/mattn/go-sqlite3/_example/mod_vtable/picojson.h:483-519 | a well-formed string body is read to its closing quote and yields what its units denote |
| `JsonGrammar.ReadsItems` | src/github.com/mattn/go-sqlite3/_example/mod_vtable/picojson.h:521-536 | the text of any nonempty list of items, up to the closing bracket, is read whole |
| `JsonGrammar.ReadsPairs` | src/github.com/mattn/go-sqlite3/_example/mod_vtable/picojson.h:538-557 | the text of any nonempty list of pairs is read whole, assigning keys from left to right |
| `JsonGrammar.ReadsSyntax` | src/github.com/mattn/go-sqlite3/_example/mod_vtable/picojson.h:576-611 | every text of the grammar is accepted, yields the value it denotes and leaves exactly what follows |
| `JsonAcceptance.SplitBody` | src/github.com/mattn/go-sqlite3/_example/mod_vtable/picojson.h:483-519 | whatever string body is accepted is spelled by well-formed units that denote what was read |
| `JsonAcceptance.SplitValue` | src/github.com/mattn/go-sqlite3/_example/mod_vtable/picojson.h:576-611 | whatever is accepted is spaces and the text of a well-formed tree that denotes the value read |
| `JsonAcceptance.AcceptsExactlyTheGrammar` | src/github.com/mattn/go-sqlite3/_example/mod_vtable/picojson.h:521-611 | the parser yields a value and a tape iff the grammar derives them |
| `JsonNullContext.BodiesAgree` | src/github.com/mattn/go-sqlite3/_example/mod_vtable/picojson.h:676-689 | skipping a string body stops and ends exactly where reading it does |
| `JsonNullContext.ContextsAgree` | src/github.com/mattn/go-sqlite3/_example/mod_vtable/picojson.h:576-702 | under the null context and the default context every input is accepted or rejected alike, with the same stream left |
| `JsonNullContext.ParseValue` | src/github.com/mattn/go-sqlite3/_example/mod_vtable/picojson.h:576-611 | the dispatch instantiated with the null context |
| `JsonNullContext.ParseArray` | src/github.com/mattn/go-sqlite3/_example/mod_vtable/picojson.h:521-536 | the array loop instantiated with the null context |
| `JsonNullContext.ParseObject` | src/github.com/mattn/go-sqlite3/_example/mod_vtable/picojson.h:538-557 | the object loop instantiated with the null context |
| `JsonEntry.ReadNear` | src/github.com/mattn/go-sqlite3/_example/mod_vtable/picojson.h:717-724 | collects the printable rest of the line for the error report |
| `JsonEntry.NearIsTheLine` | src/github.com/mattn/go-sqlite3/_example/mod_vtable/picojson.h:717-724 | a rest of line without control bytes is reported as it is, and what comes next starts behind its newline |
| `JsonEntry.ControlsAreNotNear` | src/github.com/mattn/go-sqlite3/_example/mod_vtable/picojson.h:717-724 | a control byte leaves no trace in the report |
| `JsonEntry.Parse` | src/github.com/mattn/go-sqlite3/_example/mod_vtable/picojson.h:711-732 | reports success, or the line and the text near the error, and returns the iterator |
| `JsonEntry.Check` | src/github.com/mattn/go-sqlite3/_example/mod_vtable/picojson.h:711-727 | with the null context the report and the iterator are the same |
| `JsonEntry.ReturnedCursor` | src/github.com/mattn/go-sqlite3/_example/mod_vtable/picojson.h:711-732 | the returned iterator stands right behind the text read, except that behind a number followed by anything it is one byte further |
| `JsonSerializer.SerializeStr` | src/github.com/mattn/go-sqlite3/_example/mod_vtable/picojson.h:287-313 | appends the quoted and escaped string to the output |
| `JsonSerializer.BytesPrinted` | src/github.com/mattn/go-sqlite3/_example/mod_vtable/picojson.h:289-309 | how each byte is written: as it is, behind a backslash, or as two lower-case hex digits |
| `JsonSerializer.PrintedAsItIsIff` | src/github.com/mattn/go-sqlite3/_example/mod_vtable/picojson.h:289-309 | a string is written as it is iff it holds no quote, backslash, slash, control byte or 0x7F |
| `JsonSerializer.SerializeArray` | src/github.com/mattn/go-sqlite3/_example/mod_vtable/picojson.h:320-331 | the array loop of the serializer |
| `JsonSerializer.SerializeObject` | src/github.com/mattn/go-sqlite3/_example/mod_vtable/picojson.h:333-346 | the object loop of the serializer |
| `JsonSerializer.Serialize` | src/github.com/mattn/go-sqlite3/_example/mod_vtable/picojson.h:315-352 | appends the text of any tree |
| `JsonSerializer.PrintedText` | src/github.com/mattn/go-sqlite3/_example/mod_vtable/picojson.h:261-352 | that text in characters: literals, signed decimal numbers, quoted strings, items and members listed with commas between them |
| `JsonRoundTrip.SpellBytesOk` | src/github.com/mattn/go-sqlite3/_example/mod_vtable/picojson.h:287-313 | a printed string body is spelled by well-formed units that denote the string |
| `JsonRoundTrip.AssignInOrder` | src/github.com/mattn/go-sqlite3/_example/mod_vtable/picojson.h:332-347 | members printed in key order are assigned back as they stood |
| `JsonRoundTrip.SpellOk` | src/github.com/mattn/go-sqlite3/_example/mod_vtable/picojson.h:315-352 | the printed text is the text of a well-formed tree without spaces that denotes the printed value |
| `JsonRoundTrip.PrintThenParse` | src/github.com/mattn/go-sqlite3/_example/mod_vtable/picojson.h:287-611 | parsing printed text followed by anything gives the value back and leaves exactly what followed, iff no number runs on into it |
| `JsonRoundTrip.PrintIsInjective` | src/github.com/mattn/go-sqlite3/_example/mod_vtable/picojson.h:315-352 | different trees print differently |
| `JsonValue.PutKeepsOrder` | src/github.com/mattn/go-sqlite3/_example/mod_vtable/picojson.h:666-670 | assigning a key keeps the map ordered and adds no other key |
| `JsonValue.LookupAfterPut` | src/github.com/mattn/go-sqlite3/_example/mod_vtable/picojson.h:666-670 | assigning a key sets that key and changes no other |
| `JsonValue.LessIsLexicographic` | src/github.com/mattn/go-sqlite3/_example/mod_vtable/picojson.h:332-340 | keys are ordered by the first byte in which they differ, a proper prefix first |
| `JsonCanonical.SpacesDoNotMatter` | src/github.com/mattn/go-sqlite3/_example/mod_vtable/picojson.h:391-407 | texts with the same tokens parse alike, whatever spaces stand before and between them |
| `JsonCanonical.ParsedObjectsAreMaps` | src/github.com/mattn/go-sqlite3/_example/mod_vtable/picojson.h:666-670 | every object that is parsed has distinct keys in order |
| `JsonCanonical.AssignedKeys` | src/github.com/mattn/go-sqlite3/_example/mod_vtable/picojson.h:538-557 | an object has exactly the keys of its pairs |
| `JsonCanonical.LastValueStays` | src/github.com/mattn/go-sqlite3/_example/mod_vtable/picojson.h:666-670 | the value of a repeated key is that of its last pair |
| `JsonCanonical.EqualIffPrintedAlike` | src/github.com/mattn/go-sqlite3/_example/mod_vtable/picojson.h:754-771 | without -0, two values are equal iff they print alike |
| `JsonCanonical.EqualIffPlainPrintedAlike` | src/github.com/mattn/go-sqlite3/_example/mod_vtable/picojson.h:754-771 | for all values: they are equal iff they print alike once every -0 is made 0 |
| `JsonCanonical.ZerosPrintApart` | src/github.com/mattn/go-sqlite3/_example/mod_vtable/picojson.h:754-771 | 0 and -0 are equal and print differently |
| `JsonCanonical.TextDecidesEqualityIffZeroFree` | src/github.com/mattn/go-sqlite3/_example/mod_vtable/picojson.h:754-771 | printed text decides equality with every other value exactly for the trees that hold no zero |
| `JsonCanonical.SecondPassChangesNothing` | src/github.com/mattn/go-sqlite3/_example/mod_vtable/picojson.h:332-347 | over trees with integer numbers, however they were written, printing what was parsed and parsing that again gives the same value |
| `Aggregates.AggInfo.constructor` | src/github.com/mattn/go-sqlite3/sqlite3.go:469-470 | an empty table whose first handle is 1 |
| `Aggregates.AggInfo.Agg` | src/github.com/mattn/go-sqlite3/sqlite3.go:216-231 | a zero slot takes the next handle and a new aggregator; otherwise the context keeps its own |
| `Aggregates.AggInfo.Step` | src/github.com/mattn/go-sqlite3/sqlite3.go:233-251 | the aggregator of this context, a new one or its own, is stepped by a row whose arguments convert and left alone by any other, and no other aggregator changes; an error is reported iff the arguments do not convert or Step fails |
| `Aggregates.AggInfo.Done` | src/github.com/mattn/go-sqlite3/sqlite3.go:253-272 | returns the result of this context's aggregator and deletes its handle alone |
| `Aggregates.RunsAreRepresented` | src/github.com/mattn/go-sqlite3/sqlite3.go:201-272 | over every legal run the table holds exactly the states of the live contexts |
| `Aggregates.DoneSeesOnlyItsOwnRows` | src/github.com/mattn/go-sqlite3/sqlite3.go:233-272 | in every interleaving each Done returns the result of a fresh aggregator stepped by exactly its context's rows in order |
| `Aggregates.DoneFollowsTheSteps` | src/github.com/mattn/go-sqlite3/sqlite3.go:233-272 | in every interleaving Done returns the result of the last of a row of states: the first is the initial one, and each row of the context that is accepted steps it |
| `Aggregates.LiveHandles` | src/github.com/mattn/go-sqlite3/sqlite3.go:216-231 | handles are distinct, lie in [1, next), and are active exactly for the contexts begun and not done |
| `Aggregates.HandlesAreConsecutive` | src/github.com/mattn/go-sqlite3/sqlite3.go:216-231 | one handle is given out for each context begun: 1, 2, 3 and so on |
| `Scripts.Conn.Exec` | src/github.com/mattn/go-sqlite3/sqlite3.go:502-532 | the loop ends because tails shrink, and database, result, calls and open handles are those of ExecEnding |
| `Scripts.Conn.Query` | src/github.com/mattn/go-sqlite3/sqlite3.go:535-560 | the loop ends, no statement runs and the database is untouched; only the last statement stays open, with its rows |
| `ScriptChains.ChainOf` | src/github.com/mattn/go-sqlite3/sqlite3.go:507-530 | every script has a whole chain: texts of which each is the tail of the one before, the databases that its statements leave, up to an empty tail or the first statement that is refused, short of arguments or failing |
| `ScriptChains.OneChain` | src/github.com/mattn/go-sqlite3/sqlite3.go:507-530 | and it has one only |
| `ScriptChains.ExactlyEarlierStatementsRan` | src/github.com/mattn/go-sqlite3/sqlite3.go:502-532 | the calls are those of the statements of the chain, in order and none skipped; Exec succeeds iff the chain is complete, and otherwise database and error are those of the first statement that is refused, short of arguments or failing; without arguments the chain is that on which no statement needs any, and sqlite3_exec makes the calls |
| `ScriptChains.CallTakesItsSlice` | src/github.com/mattn/go-sqlite3/sqlite3.go:502-523 | the statement of each stage is called once, in its turn, with as many arguments as it has parameters, starting at the sum of the earlier parameter counts; there are no other calls, and without arguments none at all |
| `ScriptChains.ArgumentsInOrder` | src/github.com/mattn/go-sqlite3/sqlite3.go:502-531 | the calls share out the first arguments, as many as the statements had parameters, in order; the others are left |
| `ScriptChains.QueryBindsEachInTurn` | src/github.com/mattn/go-sqlite3/sqlite3.go:535-560 | Query succeeds iff its chain is complete, with the last statement on the arguments from the sum of the earlier parameter counts on; otherwise the last stage tells the error |
| `ScriptChains.ExecLeaksIffTooFew` | src/github.com/mattn/go-sqlite3/sqlite3.go:502-526 | Exec leaves one handle open and reports that arguments are missing iff it is given some, but fewer than the parameters of the statements reached with enough of them; otherwise it leaves none open |
| `ScriptChains.MissingArgumentsPass` | src/github.com/mattn/go-sqlite3/sqlite3.go:502-505 | with no arguments at all a statement with a parameter runs with nothing bound, and Exec succeeds |
| `ScriptChains.QueryLeaksIffTooFew` | src/github.com/mattn/go-sqlite3/sqlite3.go:535-552 | Query leaves one handle without rows open and reports that arguments are missing iff they are fewer than the parameters, also if there are none; otherwise it leaves none so |
| `ScriptChains.EnoughArguments` | src/github.com/mattn/go-sqlite3/sqlite3.go:513-516 | any arguments can be continued to enough of them |
| `Scripts.MoreArguments` | src/github.com/mattn/go-sqlite3/sqlite3.go:514-523 | further arguments do not change a run that did not lack any |
| `Scripts.JoinedLoop` | src/github.com/mattn/go-sqlite3/sqlite3.go:507-531 | a joined script runs its first part as alone and, if that succeeds, its second part with the arguments left; if the second part is blank only the result may be that of the first |
| `Scripts.SameLoop` | src/github.com/mattn/go-sqlite3/sqlite3.go:507-560 | Exec and Query do the same on texts that are prepared alike all the way down |
| `Scripts.ExecIsItsLoop` | src/github.com/mattn/go-sqlite3/sqlite3.go:502-532 | handing a script without parameters to sqlite3_exec has the effect of the loop on it |
| `Scripts.JoinedScriptRunsInTurn` | src/github.com/mattn/go-sqlite3/sqlite3.go:502-532 | running two scripts as one with the arguments of both is running them in turn, whatever white space stands at the end of the first or around the second; a part without arguments must have no parameters |
| `Scripts.QueryReturnsLastPart` | src/github.com/mattn/go-sqlite3/sqlite3.go:535-560 | of a joined script Query returns the rows of the second part alone, unless that is blank |
| `Binding.CollectNames` | src/github.com/mattn/go-sqlite3/sqlite3.go:718-724 | keeps the names that are a dollar sign and a digit, then anything, in order |
| `Binding.NumberedBoth` | src/github.com/mattn/go-sqlite3/sqlite3.go:718-724 | names are kept or not one by one, in their order |
| `Binding.NumberedOne` | src/github.com/mattn/go-sqlite3/sqlite3.go:720-722 | a name is kept iff it starts with a dollar sign and a digit |
| `Binding.AtoiReads` | src/github.com/mattn/go-sqlite3/sqlite3.go:767 | a number is read iff it is all decimal digits and fits 64 signed bits |
| `Binding.Stmt.Bind` | src/github.com/mattn/go-sqlite3/sqlite3.go:757-817 | fills the entries and writes the slots in order, up to the first out of range |
| `Binding.BindSucceedsIff` | src/github.com/mattn/go-sqlite3/sqlite3.go:763-815 | binding succeeds iff no parameter is numbered by name or all are, with numbers a C int keeps among the slots |
| `Binding.LastWriteStays` | src/github.com/mattn/go-sqlite3/sqlite3.go:779-815 | of several entries for a slot before the first one out of range the last one stays |
| `Binding.UnwrittenStays` | src/github.com/mattn/go-sqlite3/sqlite3.go:779-815 | a slot with no such entry is as it was |
| `Binding.PositionalArgumentsInOrder` | src/github.com/mattn/go-sqlite3/sqlite3.go:772-776 | without numbered names the slots hold the arguments in order |
| `Binding.NumberedArgumentsLand` | src/github.com/mattn/go-sqlite3/sqlite3.go:718-771 | with the names of a statement in first-occurrence order p, argument i is in slot p(i) and every slot is written once |
| `Binding.NamesMeanNumbersIffInvolution` | src/github.com/mattn/go-sqlite3/sqlite3.go:717-776 | $k receives the k-th argument, for all arguments, iff p is its own inverse |
| `Lifecycle.Stmt.Close` | src/github.com/mattn/go-sqlite3/sqlite3.go:731-745 | only the first close acts, and finalizes only under an open connection; it fails iff it comes after the connection or sqlite3_finalize does |
| `Lifecycle.Rows.Close` | src/github.com/mattn/go-sqlite3/sqlite3.go:856-868 | does nothing on a closed statement, closes it if the rows own it, and resets it otherwise, with the result of that call |
| `Lifecycle.PassOver` | src/github.com/mattn/go-sqlite3/sqlite3.go:541-558 | the two closes of a statement Query passes over are one effective close |
| `Lifecycle.FinalizedOnceIffClosedInTime` | src/github.com/mattn/go-sqlite3/sqlite3.go:731-745 | over every run a handle is finalized once if the first operation that closes it finds the connection open, and otherwise never |
| `Lifecycle.FinalizedAreClosed` | src/github.com/mattn/go-sqlite3/sqlite3.go:731-868 | no call for a handle follows its finalization |
| `Lifecycle.NothingAfterClose` | src/github.com/mattn/go-sqlite3/sqlite3.go:856-868 | once a statement is closed no later operation resets or finalizes its handle |
| `Lifecycle.ResetOncePerRewind` | src/github.com/mattn/go-sqlite3/sqlite3.go:856-868 | over every run a handle is reset once for each close of rows that do not own it before anything closes it |
| `Linkifier.StaysAhead` | src/shareNotes.go:97-128 | the search offset never passes the true place of the current link |
| `Linkifier.GreedyChoosesFirst` | src/shareNotes.go:97-128 | each link is placed no later than in any occurrence of the links with gaps |
| `Linkifier.AnchorsStandAtTheirPlaces` | src/shareNotes.go:97-128 | the anchors of the output stand at the places chosen, and these are an occurrence of the links with gaps |
| `Linkifier.EndsIffGapped` | src/shareNotes.go:97-129 | the loop ends iff the links occur in order with at least one byte between any two |
| `Linkifier.AdjacentLinksNeverEnd` | src/shareNotes.go:97-129 | on two links side by side the loop never ends, whatever they are |
| `Linkifier.HostThenAddressNeverEnds` | src/shareNotes.go:90-129 | such are a host name and an IPv6 address |
| `Linkifier.PartialHtmlParser` | src/shareNotes.go:89-137 | the text is the rendering of Output, or the text itself when there are no links; of a text without tags, erasing the tags of the output leaves a prefix of it |
| `Linkifier.OutputReadsAsTheText` | src/shareNotes.go:97-129 | the tags of the output string are an opening one with the target and a closing one for each link in order, and without them it is a prefix of the text |
| `Linkifier.AddressesAreTargets` | src/shareNotes.go:99-111 | the k-th address read out of the output string is the target of the k-th link |
| `Linkifier.TargetOf` | src/shareNotes.go:99-111 | the target is the link if it contains one of the nine texts and else has http:// in front |
| `Linkifier.AnchorsAreTheLinks` | src/shareNotes.go:97-129 | the anchors are the links in order, each once, and the bytes kept are a prefix of the text |
| `Linkifier.EndsAtLastLink` | src/shareNotes.go:112-128 | the output ends with the last anchor, the text then being used up, or with it and one byte more |
| `Linkifier.TargetStartsWithSchemeIff` | src/shareNotes.go:99-111 | a target starts with a listed scheme iff the link starts with one or contains none |
| `Linkifier.SlashlessLinkGetsHttp` | src/shareNotes.go:99-111 | a link without slashes gets http:// in front, even one that names a scheme such as mailto |
| `Linkifier.MailtoLeadsToHost` | src/shareNotes.go:99-111 | a mail address leads to http://mailto: and so to a host |
| `Linkifier.QueryWithSchemeStaysRelative` | src/shareNotes.go:99-111 | a host with an address in its query keeps a relative target |
| `RateLimiter.Limiter.TooManyRequests` | src/shareNotes.go:485-496 | refuses within 1000 ns of the last accepted call and otherwise remembers the reading |
| `RateLimiter.Run` | src/shareNotes.go:485-496 | the calls accepted in a run are those of Accepted |
| `RateLimiter.AcceptedPairwiseApart` | src/shareNotes.go:490-495 | any two accepted calls are more than 1000 ns apart |
| `RateLimiter.WindowBound` | src/shareNotes.go:490-495 | a closed window of W ns holds at most W/1001 + 1 accepted calls |
| `RateLimiter.WindowBoundIsReached` | src/shareNotes.go:490-495 | that bound is reached |
| `RateLimiter.NoLargerChoice` | src/shareNotes.go:490-495 | no other choice of readings with gaps over 1000 ns is larger |
| `RandomText.RandomStringLength` | src/shareNotes.go:42-61 | returns iff the words hold enough letters, and then the letters of the digits taken, reversed, drawing words only as needed |
| `RandomText.CutDigit` | src/shareNotes.go:48-57 | cuts the next digit of the stream, drawing a word only when ten digits are used up |
| `RandomText.KthLetterFromTheEnd` | src/shareNotes.go:47-55 | the k-th letter drawn stands k places before the end |
| `RandomText.LettersAreKeptDigits` | src/shareNotes.go:52-55 | the letters drawn are those of the digits below 52, in order |
| `RandomText.DigitIsSixBits` | src/shareNotes.go:52-57 | digit i of a word is its bits 6i to 6i + 5 |
| `RandomText.StreamIsTenDigitsEach` | src/shareNotes.go:48-57 | digit i of the stream is digit i mod 10 of word i / 10 |
| `RandomText.AlphabetInOrder` | src/shareNotes.go:35 | the alphabet is the small letters and then the capitals in order |
| `PathGrammar.MatchedIsAccepted` | src/github.com/mvdan/xurls/xurls.go:18-23 | whatever pathCont matches the automaton accepts |
| `PathGrammar.AcceptedIsMatched` | src/github.com/mvdan/xurls/xurls.go:18-23 | whatever the automaton accepts from a place outside brackets pathCont matches |
| `PathGrammar.PathContIsTheAutomaton` | src/github.com/mvdan/xurls/xurls.go:18-23 | pathCont denotes exactly the strings of the bracket automaton |
| `PathGrammar.LongestMatchIsLastAccepting` | src/github.com/mvdan/xurls/xurls.go:50-53 | the longest match is the automaton's last accepting position |
| `PathGrammar.PathsOfOneCharacter` | src/github.com/mvdan/xurls/xurls.go:13-18 | which single characters are paths |
| `PathGrammar.PathsOfTwoCharacters` | src/github.com/mvdan/xurls/xurls.go:13-19 | which characters may stand before an end |
| `Conversions.CallbackConvertArgs` | src/github.com/mattn/go-sqlite3/callback.go:176-201 | converts the fixed arguments and the variadic tail in order, or returns the first error |
| `Conversions.ConvertsIffEachDoes` | src/github.com/mattn/go-sqlite3/callback.go:176-201 | a list is converted iff there are enough arguments and each is by its own or the variadic converter |
| `Conversions.FirstErrorIsReturned` | src/github.com/mattn/go-sqlite3/callback.go:176-201 | otherwise the error is that there are too few, or that of the first argument that fails |
| `Conversions.SupportedTypes` | src/github.com/mattn/go-sqlite3/callback.go:140-174 | the argument types that have a converter |
| `Conversions.WhatConverts` | src/github.com/mattn/go-sqlite3/callback.go:60-174 | what each converter makes of each SQL value |
| `Conversions.KindRanges` | src/github.com/mattn/go-sqlite3/callback.go:145-172 | the values of each integer kind |
| `Conversions.CallbackRetInteger` | src/github.com/mattn/go-sqlite3/callback.go:205-223 | writes an integer or a boolean as 64 signed bits and refuses other kinds |
| `Conversions.CallbackRetBlob` | src/github.com/mattn/go-sqlite3/callback.go:238-250 | writes a byte slice, an empty one as NULL, and refuses other kinds |
| `Conversions.CallbackRetText` | src/github.com/mattn/go-sqlite3/callback.go:252-258 | writes a string as the C string it is read as and refuses other kinds |
| `Conversions.WhatIsSent` | src/github.com/mattn/go-sqlite3/callback.go:205-258 | integers and booleans are sent as INTEGER, slices as BLOB or NULL, text as TEXT |
| `Conversions.SupportedResults` | src/github.com/mattn/go-sqlite3/callback.go:260-276 | the result types that have a converter |
| `Conversions.Return` | src/github.com/mattn/go-sqlite3/callback.go:260-276 | the converter chosen for a type writes every value of that type |
| `Conversions.ThroughInt64` | src/github.com/mattn/go-sqlite3/callback.go:60-88 | passing through 64 signed bits loses nothing any integer kind can hold, unsigned values from 2^63 up included |
| `Conversions.ReturnsIffSurvives` | src/github.com/mattn/go-sqlite3/callback.go:145-258 | a value sent out and converted back by the converter for its type returns iff it is no text with a zero byte and no empty slice |
| `Conversions.ArgumentListsReturn` | src/github.com/mattn/go-sqlite3/callback.go:145-258 | an argument list of any arity, with a variadic tail, comes back whole iff each value does |

## Left out

- Serialize: the text of a double that is not an exact integer below 2^53 is a parameter, as the C library decides it. Such a number is kept as the token it was read from.
- ParseNumber: the rounding of strtod is not modelled; which tokens it reads whole is, and tokens whose exact decimal value is an integer below 2^53 in magnitude have that value, 1.0 and 1e2 included.
- SecondPassChangesNothing: says nothing on trees with other numbers, among them those that strtod rounds to an integer.
- MatchBytes: bytes compare as unsigned; the patterns of all callers are ASCII.
- ParseValue: the partly built tree that the source leaves in its output when a parse fails is not modelled.
- GetC: the line counter does not overflow, as it would after 2^31 lines; recursion depth is not bounded by a stack.
- Parse: the wording of the error report is not modelled, only its line and its text; the caller always asks for a report.
- PartialHtmlParser: is stated on the texts on which the loop ends, which EndsIffGapped characterizes; for empty links, which the URL expression does not find, only one direction holds.
- Agg: a constructor that fails, after its handle is stored, and a constructor that returns one object twice are not modelled; the handle counter does not overflow.
- JoinedScriptRunsInTurn: of parts without arguments, which Exec hands to sqlite3_exec, it states the database and the error, not the row identifiers of success.
- ExactlyEarlierStatementsRan: without arguments it assumes that sqlite3_exec runs each statement as one step of the driver would. In truth sqlite3_exec steps a statement to its end and the driver takes a single step, so a query that fails on a later row fails in sqlite3_exec alone. ExecIsItsLoop, MissingArgumentsPass and JoinedScriptRunsInTurn share the assumption.
- Bind: how a value is converted to its SQL form is not modelled, only which slot receives it.
- TooManyRequests: parallel calls are not modelled; the lemmas on runs assume a clock that does not go back and is not negative.
- RandomStringLength: the words are a finite sequence; a call that would need more has not returned.
- CallbackConvertArgs: the floating-point kinds are not modelled.
- The picojson deny context, accessors, copying and memory management.
- SQLite itself: parsing, execution and storage. The trimming of a script's tail is part of what the engine's prepare yields.
- SQLiteRows.Next and its conversion of columns and times.
- The registration of functions and aggregators, backups, extensions, connection options and finalizers.
- The HTTP handlers, templates, session tokens, the note database and the paste command of ShareNotes.
- The host, address, scheme and port parts of the URL expression, the generated tables, and the regular expression engine; a match is what the expression denotes.

# A verified model of the Gitty Up web server's core

This project models, in Dafny, three parts of the server and proves what they are for.

1. **The configuration language** (`src/config_parser.cc`): the character lexer with one character of
   push-back, the parser that mutates linked objects through an explicit stack, the indenting printer,
   and the extraction of port, root and thread count. Parsing is proved equal to a grammar, printing
   and parsing are proved inverse on exactly the trees that can be printed, and the objects that the
   parser leaves behind are proved to be an unshared, acyclic tree.
2. **The meme store** (`src/meme_handler.cc`, `src/sql_lib.cc`, `src/uri_lib.cc`): percent-coding, the
   form-body scanner, the compiler from selectors to SQL text with numbered placeholders, the store as
   a machine of atomic SQL statements in which the two statements of a view may be separated by steps
   of other requests, and the list sent to the client together with the client's reading of it.
3. **The router and the status recorder** (`src/router.cc`, `src/server_status_recorder.cc`,
   `src/status_handler.cc`): first-wins registration, longest-prefix matching over a map walked in any
   order, the choice of a handler from the text of a configuration file, the order in which mutexes are
   taken, and the consistency of the status page.

`dafny verify dfyconfig.toml` checks everything.

## How it is laid out

- `Text` (numerals, `stoi`), `ConfigTree` (trees, printing, grammar), `Lexer`, `TokenStream`,
  `ParserMachine` (stack machine and grammar), `RoundTrip`, `Settings`, `ConfigHeap` (linked objects),
  `ConfigParser` (the parser on them), `ServerSettings` (from text to settings).
- `Spelling`, `KeywordRules`, `WrittenForms`, `ListOrder`, `Serving`: what the tokens, the settings, the
  forms, the list and the choice of a handler come to, with the characters, numbers, keywords and names
  written out instead of the functions that the other modules use.
- `UriCodec`, `FormBody`, `FormFields` (what any form stores), `SqlLanguage` (reading and running SQL), `SqlText` (building it),
  `SqlCompile` (what the engine reads in those texts), `SqlManager`, `MemeTable`, `MemeHistory` (what a
  log of steps says), `MemeStore` (the machine that does it), `StableSort`, `JsonStrings`,
  `MemeListing`, `MemeHandler`, `SentAndShown` (from a form to what later viewers get).
- `StatusRecorder`, `StatusPage` (reading a page back), `Router`, `Routing` (from text to handler),
  `RouterLocks`, `RegistrationLocks`.

Objects that the source updates in place are classes; each of their methods is proved against a
function, and the laws are lemmas about those functions. Results of I/O, the ids drawn at random,
whether the database manages to complete a statement, and the branch taken at each lock are
parameters.

## Where the code and its description differ

- A bare word that runs into the end of the file is dropped, and a carriage return does not end a bare
  word although it is skipped in front of one (`src/config_parser.cc:102`, `:131`, `:147`;
  BareWordIsReadIff says exactly when a bare word is read).
- `server_main` does not look at the parser's answer (`src/server_main.cc:43`), so the router may be
  set up from the partial tree of a rejected text. The routing results and the settings are therefore
  proved for every text, not only for accepted ones.
- Any token at all is a value after `root`, while a rejected port or thread count leaves its keyword in
  force for the next token.
- The percent-encoder passes through the unreserved characters of section 2.3 of RFC 3986 except the
  full stop (PassesThroughIff).
- A value is stored as sent only if all its characters are in `[\w.,?! ]` (StoredAsSentIff). The full stop
  of `.jpg` in a template's name may be any character, since the expression does not escape it. The body is
  decoded before it is scanned, so any other value is cut at its first other character and what follows
  there is scanned for fields, which can replace the template or a caption: `x&memeSelect=y.jpg` as a
  top caption stores the template `y.jpg` (CaptionReplaces). What is stored comes from the form's own
  three fields exactly when each value begins with a value character and no such field is found
  (OwnValuesIff); values without an equals sign are only ever cut (CutOutcome).
- A view can be lost, and a count can even go down, when two views of one meme overlap: a write adds
  one exactly when its view read the present count, and takes the count down exactly when the present
  count is more than one above what was read (WriteMovesStoredCountIff).
- A caption update or deletion of a meme that does not exist is answered with success and changes
  nothing (CaptionsOfMissing, DeleteChangesIff).
- A route comes from the first block that gives it, but its handler's configuration is the last block
  of that name; the two are one block exactly when no later block has the name
  (ConfiguredByItsBlockIff, with an example in RouteFromFirstConfigFromLast).
- Registration takes the configuration's lock before the route map's, the reverse of the order in which
  a request takes them that searches the proxies. Beside requests it can get stuck exactly when there
  is a route to register and some request makes that search (RegistrationGetsStuckIff); the server lets
  it finish before the first request.
- The status page writes URLs as they are, so its text shows the recorded rows exactly when none of them
  holds a '<' (TextShowsPageIff, with two readings of one text in TagsAreAmbiguous).

## Model

| member | source | states |
|---|---|---|
| Lexer.ParseToken | src/config_parser.cc:67-148 | the five-state machine over `get` and `unget` answers exactly the token that a direct reading of the remaining text gives, and leaves exactly the text behind that token |
| TokenStream.NextTokenProgress | src/config_parser.cc:70-139 | every call that answers neither EOF nor ERROR consumes input in spite of the push-back |
| TokenStream.LexerCalls | src/config_parser.cc:157-232 | a text of n characters is read in at most n + 1 calls |
| TokenStream.NormalIsLexable | src/config_parser.cc:76-137 | whatever comes back as a NORMAL token is a closed quoted string or a bare word |
| TokenStream.LexableIsNormal | src/config_parser.cc:87-137 | every such string is read back as that one token, a bare word when something follows that ends it |
| TokenStream.BareWordIsReadIff | src/config_parser.cc:130-147 | a bare word is read back if and only if a character follows that ends it; at the end of the file it comes back as EOF |
| Spelling.SkippedIff | src/config_parser.cc:99-107 | a space, tab, line feed or carriage return in front of a token is skipped, and no other character |
| Spelling.WordEndsIff | src/config_parser.cc:104-147 | a bare word ends at the first space, tab, line feed, semicolon or brace, and at no other character, the carriage return included; at the end of the file it is lost |
| Spelling.PunctuationIsRead | src/config_parser.cc:78-98 | a semicolon and either brace are tokens by themselves |
| Spelling.QuotedIsOneWord | src/config_parser.cc:88-123 | a quoted string runs to the next mark of its own kind and keeps both; without that mark the text is in error |
| Spelling.CommentIsSkipped | src/config_parser.cc:84-129 | a comment runs to the next line feed or carriage return, or to the end of the file, and leaves no token |
| ParserMachine.StepIsSound | src/config_parser.cc:173-215 | each accepted token extends the token sequence derived by what is built, which stays well formed |
| ParserMachine.RunStmts | src/config_parser.cc:157-232 | the machine reads the yield of any well-formed statements and appends exactly these statements |
| ParserMachine.SoundFor | src/config_parser.cc:150-238 | an accepted token sequence derives from the grammar by the tree that was built |
| ParserMachine.Complete | src/config_parser.cc:150-238 | every derivable token sequence is accepted and its derivation tree is rebuilt |
| ParserMachine.DerivationIsUnique | src/config_parser.cc:150-238 | a token sequence has at most one derivation tree |
| ParserMachine.ParseIsGrammar | src/config_parser.cc:150-238 | `Parse` answers true if and only if the text lexes to its end and its tokens derive from `stmt+`, and the tree is that derivation behind the caller's own statements |
| RoundTrip.LexPrint | src/config_parser.cc:20-51 | the lexer reads a printed tree, at any depth and in front of any text, as the tokens the tree derives |
| ConfigTree.PrintedLines | src/config_parser.cc:28-51 | a statement at depth d and the closing brace of its block begin with 2d spaces; its tokens are separated by single spaces, and its block is printed one level deeper |
| RoundTrip.PrintThenParse | src/config_parser.cc:20-51 | the printed form of a printable tree, at any starting depth, is accepted and gives the tree back |
| RoundTrip.RoundTripIff | src/config_parser.cc:20-51 | the round trip succeeds for the trees whose blocks, statements and tokens are non-empty and lexable, and for no others |
| RoundTrip.AcceptedIsPrintable | src/config_parser.cc:150-238 | every accepted text yields such a tree |
| RoundTrip.NormalisationIsFixedPoint | src/config_parser.cc:20-51 | parsing the printed form of an accepted text gives the same tree, and printing again the same text |
| RoundTrip.PartialTreeIsTokenised | src/config_parser.cc:173-184 | even after a failed parse every statement built has a token and only lexable ones |
| ConfigHeap.NginxConfigStatement.ToString | src/config_parser.cc:28-51 | the printer on linked objects writes the printed form of the tree that they represent |
| ConfigHeap.NginxConfig.ToString | src/config_parser.cc:20-26 | the same for a configuration |
| ConfigHeap.NestingIsAcyclic | src/config_parser.cc:194-203 | no path through child blocks comes back to where it has been |
| ConfigHeap.NothingIsShared | src/config_parser.cc:179-184 | a configuration is the child block of at most one statement, and that statement stands in one place only |
| ConfigParser.Separate | src/config_parser.cc:151-152 | all stack entries and all statements under construction are different objects |
| ConfigParser.OnFirstNormal | src/config_parser.cc:179-184 | a first word adds one new statement to the innermost block and keeps the heap invariant |
| ConfigParser.OnFurtherNormal | src/config_parser.cc:183-184 | a further word goes to the last statement of the innermost block, which exists |
| ConfigParser.OnStartBlock | src/config_parser.cc:199-203 | the statement that gets a child block had none, and the new stack entry is its child |
| ConfigParser.OnToken | src/config_parser.cc:165-231 | each iteration steps the stack machine, keeps the invariant (stack height is open blocks plus one, bottom is the caller's configuration, each entry is the child of the last statement beneath it), and changes nothing when it rejects |
| ConfigParser.ParseTokens | src/config_parser.cc:157-232 | the token loop computes what the stack machine does on the remaining text, within its number of lexer calls |
| ConfigParser.Parse | src/config_parser.cc:150-238 | after parsing, accepted or not, the objects form a closed tree whose value and answer are those of the grammar, and at most one lexer call per character plus one was made |
| ConfigHeap.NginxConfig.ParseStatements | src/config_parser.cc:254-328 | the nested loops store exactly the gathered port, root and thread count |
| Settings.AllReadOff | src/config_parser.cc:261-319 | gathering with its skipped `prev_token` updates is reading the first good port, last root and last thread count off the keyword slots |
| Settings.PortMeaning | src/config_parser.cc:274-291 | true is answered exactly when some slot gives a port; it is the first such and lies in 1..65535 |
| Settings.RootMeaning | src/config_parser.cc:292-298 | the root is the last one given, "." standing for the empty one |
| Settings.ThreadsMeaning | src/config_parser.cc:299-315 | the thread count is the last readable one or the default, and never less than one |
| Settings.PortSurvivesNarrowing | include/server.h:17 | a found port survives the narrowing to `short` and the widening to an unsigned port |
| KeywordRules.PortRule | src/config_parser.cc:274-291 | as long as no port is found, the first number from 1 to 65535 behind `port` is taken, whatever unreadable or unsuitable tokens come in between |
| KeywordRules.NoPortRule | src/config_parser.cc:274-291 | without such a number nothing changes |
| KeywordRules.SecondPortRule | src/config_parser.cc:274 | once a port is found, what follows `port` is passed over |
| KeywordRules.RootRule | src/config_parser.cc:292-298 | the token behind `root` is taken at once, a full stop as the empty root |
| KeywordRules.ThreadRule | src/config_parser.cc:299-315 | the first number but zero behind `threadCount` is taken, whatever unreadable or zero tokens come in between, and a negative one modulo 2^32 |
| KeywordRules.NoThreadRule | src/config_parser.cc:305-314 | without such a number the count stays, or is reset to 10 by a zero |
| KeywordRules.PassedOver | src/config_parser.cc:270-317 | behind a token that is no keyword every token is passed over |
| KeywordRules.SettingsAsWritten | src/config_parser.cc:254-328 | a port, a root and a thread count in range are found as written, for all of them |
| KeywordRules.OtherCounts | src/config_parser.cc:254-328 | without settings there is no port, no root and ten threads; zero threads mean ten, and -k of them 2^32 - k |
| KeywordRules.PortBehindOthers | src/config_parser.cc:282-289 | any sequence of unsuitable tokens between `port` and a port leaves the port to be found, and gives none without it |
| KeywordRules.SettingsOfPlainText | src/server_main.cc:40-53 | the text with those three statements, one on a line, gives these settings |
| ServerSettings.ReadSettings | src/server_main.cc:40-53 | parsing a text and extracting its settings on the objects gives the settings of the tree that the grammar assigns to the text |
| ServerSettings.SettingsOfText | src/config_parser.cc:254-328 | a text gives the first good port, the last root and the last readable thread count among its top-level keyword slots |
| ServerSettings.ReformattingKeepsSettings | src/config_parser.cc:20-51 | printing an accepted text anew changes none of its settings |
| UriCodec.UriEncode | src/uri_lib.cc:39-65 | the loop computes the encoding of each byte, bytes from 128 up included |
| UriCodec.UriDecode | src/uri_lib.cc:68-91 | the loop with its extra steps computes decoding, and throws exactly when an extraction does |
| UriCodec.DecodeEncoded | src/uri_lib.cc:68-91 | every percent-encoding of a string, in front of any further text, is decoded to that string: raw bytes, plus signs for spaces, triplets in either case |
| UriCodec.EncodeEncodes | src/uri_lib.cc:39-65 | what the encoder writes is one of those encodings |
| UriCodec.SerializeEncodes | web/memes/create.js:43 | what the web pages send is another |
| UriCodec.PassesThroughIff | src/uri_lib.cc:47-61 | a byte is passed through unencoded if and only if RFC 3986 calls it unreserved and it is not the full stop |
| UriCodec.EncodedInHex | src/uri_lib.cc:7-65 | every other byte is written as its number in two lower-case hexadecimal digits behind a percent sign |
| UriCodec.DecodedFromHex | src/uri_lib.cc:19-91 | two hexadecimal digits in either case behind a percent sign are the byte with that number, one at the end of the text is its own number, and none is zero |
| UriCodec.DecodeEncode | src/uri_lib.cc:39-91 | decoding an encoded string followed by any text gives the string followed by that text decoded |
| UriCodec.UriRoundTrip | src/uri_lib.cc:39-91 | decoding undoes encoding for every byte string |
| UriCodec.EncodedShape | src/uri_lib.cc:7-65 | encoded text holds unreserved characters and well-formed triplets only and is one to three times as long |
| FormBody.ScannerIsRegex | src/meme_handler.cc:417-432 | the deterministic scanner finds a match exactly where the regular expression has one, with its leftmost greedy key and value |
| FormBody.BodyCheck | src/meme_handler.cc:409-455 | the loop over matches and the three checks compute the outcome of decoding, scanning and checking |
| FormBody.AcceptedValues | src/meme_handler.cc:433-454 | whatever is accepted is made of value characters, names a template and has two non-empty captions |
| FormBody.FormRoundTripIff | src/meme_handler.cc:409-455 | a form whose three values are sent in any percent-encoding is accepted with exactly these values if and only if they are such values |
| FormBody.ClientFormsIff | web/memes/create.js:43 | the same for the bodies that the pages send and for the server's own encoder |
| WrittenForms.StoredAsSentIff | src/meme_handler.cc:409-455 | a body with the fields `memeSelect`, `topCaption` and `bottomCaption`, as the pages or in any other percent-encoding, is stored as sent if and only if the three values are made of letters, digits, `_`, `.`, `,`, `?`, `!` and spaces, the captions are not empty, and the template holds a letter, any character and `jpg` in a row |
| WrittenForms.AcceptedIsWritten | src/meme_handler.cc:433-454 | whatever the body, nothing but such values is accepted |
| WrittenForms.TwoWordsAreStored | web/memes/create.js:43 | the pages send a space as a plus sign, and it is stored as a space |
| FormFields.FieldsConcat | src/meme_handler.cc:417-432 | scanning two texts joined by an ampersand finds the fields of the first and then those of the second, whatever the texts are |
| FormFields.FieldsOfPair | src/meme_handler.cc:417-432 | a key and any value are read as that key with the value's longest prefix of value characters, if there is one, and then as the fields in the rest of the value |
| FormFields.FormOutcome | src/meme_handler.cc:409-455 | any form, its values of any kind and in any percent-encoding, is judged by its own fields and those planted in the rests of its values |
| FormFields.ValueOfOrigin | src/meme_handler.cc:424-430 | of several fields with one key the last gives the value |
| FormFields.OwnValuesIff | src/meme_handler.cc:409-455 | the three values checked and stored come from the form's own three fields if and only if each value begins with a value character and no field that would replace one of them is planted in the values; they are then the values up to their first other character |
| FormFields.NoFieldsIff | src/meme_handler.cc:417-432 | a text holds no field if and only if nowhere in it a word character, an equals sign and a value character follow one another |
| FormFields.CutOutcome | src/meme_handler.cc:409-455 | a form whose values hold no equals sign is judged by the values cut at their first character that is no value character |
| FormFields.CaptionReplaces | src/meme_handler.cc:413-432 | for all accepted values, the top caption `x&memeSelect=other` stores the template `other`, and the top caption `x&topCaption=y` stores the caption `y` |
| Text.StoiOfDecimal | src/meme_handler.cc:313-315 | `stoi` reads back what `to_string` wrote for a natural number exactly when it fits an `int` |
| Text.StoiOfIntText | src/meme_handler.cc:313-315 | `stoi` reads back whatever `to_string` writes for an `int` |
| Text.DecimalDigits | src/meme_handler.cc:315 | numerals are written in decimal notation, digit by digit |
| Text.StoiReads | src/config_parser.cc:276 | `stoi` reads white space, at most one sign and a run of digits, ignores what follows, and throws when the number does not fit an `int` |
| Text.StoiThrows | src/config_parser.cc:276 | without a digit in that place it throws |
| SqlText.CStringCuts | src/sql_lib.cc:84-88 | a value is bound up to its first NUL |
| SqlText.AppendPairs | src/sql_lib.cc:105-110 | the loop appends one numbered pair per selector and counts the placeholders on |
| SqlText.BindAll | src/sql_lib.cc:125-134 | the loop binds placeholder k to the k-th value, cut at a NUL, after those already bound |
| SqlText.PrepareInsert | src/sql_lib.cc:65-88 | builds the INSERT text and bindings whose reading is given by InsertReads and InsertMeaning |
| SqlText.PrepareUpdate | src/sql_lib.cc:103-134 | builds the UPDATE text and bindings whose reading is given by UpdateReads and UpdateMeaning |
| SqlText.PrepareDelete | src/sql_lib.cc:149-168 | builds the DELETE text and bindings whose reading is given by FromReads and DeleteMeaning |
| SqlText.PrepareSelect | src/sql_lib.cc:183-201 | builds the SELECT text and bindings whose reading is given by FromReads and SelectMeaning |
| SqlCompile.InsertReads | src/sql_lib.cc:65-78 | the text parses to an INSERT of the selectors' columns with placeholders 1 to n, and is a syntax error when there are none |
| SqlCompile.UpdateReads | src/sql_lib.cc:103-118 | the text parses to an UPDATE with placeholders 1 to n for the assignments and n + 1 to n + m for the conditions, and is a syntax error when nothing is set |
| SqlCompile.FromReads | src/sql_lib.cc:149-191 | the DELETE and SELECT texts parse to one condition per selector, placeholders 1 to n |
| SqlLanguage.ExecuteKeepsTable | src/meme_handler.cc:15-22 | any statement with any bindings keeps one field per column and a unique key |
| SqlManager.EachPlaceholderOnce | src/sql_lib.cc:104-134 | placeholders 1 to n + m are each used once, in order, and bound to the value of their own selector |
| SqlManager.InsertMeaning | src/sql_lib.cc:63-98 | running the INSERT text with its bindings adds the selectors' row, failing exactly when a column is unknown or missing or the key is taken |
| SqlManager.UpdateMeaning | src/sql_lib.cc:101-144 | running the UPDATE text with its bindings maps exactly the rows that satisfy all conditions to their assigned values, failing exactly when nothing is set, a name is unknown or keys would collide |
| SqlManager.DeleteMeaning | src/sql_lib.cc:147-178 | running the DELETE text with its bindings leaves the rows that fail some condition: none when there are no conditions |
| SqlManager.SelectMeaning | src/sql_lib.cc:181-228 | running the SELECT text with its bindings yields the rows that satisfy all conditions, in table order |
| SqlManager.SqlManager.InsertRecord | src/sql_lib.cc:63-98 | the table becomes what the selectors say and true is answered, or it is left alone and false is answered |
| SqlManager.SqlManager.UpdateRecord | src/sql_lib.cc:101-144 | the same for updates |
| SqlManager.SqlManager.DeleteRecord | src/sql_lib.cc:147-178 | the same for deletions |
| SqlManager.SqlManager.SelectRecord | src/sql_lib.cc:181-228 | the rows wanted, or the first of them when the engine fails on the way |
| SqlManager.Collect | src/sql_lib.cc:203-227 | the stepping loop delivers all rows, or those before the failure |
| MemeTable.InsertById | src/meme_handler.cc:465-471 | inserting succeeds exactly when the key is new and adds that row and no other |
| MemeTable.InsertedByName | src/meme_handler.cc:12-22 | in a table named and made like the handler's, the new row has id, template, captions and zero in the columns `id`, `img_path`, `top_caption`, `bot_caption` and `times_viewed` |
| MemeTable.CaptionsById | src/meme_handler.cc:142-147 | a caption update changes the three caption fields of the row with that key and nothing else |
| MemeTable.CountById | src/meme_handler.cc:314-318 | a count update changes the count of the row with that key and nothing else |
| MemeTable.DeleteById | src/meme_handler.cc:180-182 | a deletion removes the row with that key and no other |
| MemeTable.SelectById | src/meme_handler.cc:304-306 | selecting by key yields the one row with that key or none |
| MemeTable.CaptionsOfMissing | src/meme_handler.cc:142-155 | a caption update of a missing meme succeeds and changes nothing |
| MemeTable.DeleteChangesIff | src/meme_handler.cc:180-190 | a deletion changes the table if and only if some row has the key |
| MemeStore.Refinement | src/meme_handler.cc:88-198 | for every interleaving with fresh ids, the row under each key is the one that the insertions, caption updates and deletions alone determine, with its counter given by view writes: pending views revive no row and alter no caption |
| MemeStore.RowsInOrderOfCreation | src/meme_handler.cc:88-198 | the table is the sequence of exactly those rows in the order in which their memes were created |
| MemeStore.ReplayIffPossible | src/meme_handler.cc:88-198 | the runs of the machine are exactly the logs in which ids are fresh and a thread writes once after each view that found a meme |
| MemeHistory.FreshIsUntouched | src/meme_handler.cc:458-472 | under an id that no meme has been given nothing is stored, viewed or counted |
| MemeHistory.CheckIdIff | src/meme_handler.cc:371-378 | an id is accepted if and only if it is five groups of 8, 4, 4, 4 and 12 hexadecimal digits in either case with hyphens between them |
| MemeHistory.StoredIsGenerated | src/meme_handler.cc:433-472 | whatever is stored stands under a generated id and has presentable captions |
| MemeHistory.CounterAtMostWrites | src/meme_handler.cc:313-318 | a count is never negative and at most the number of completed view writes to its key, while that number fits an `int` |
| MemeHistory.CounterExactIff | src/meme_handler.cc:304-318 | the count of a stored meme is the number of completed view writes if and only if none of them came from a stale view |
| MemeHistory.FreshViewIsCounted | src/meme_handler.cc:304-318 | a completed write of a view that is not stale raises the count by exactly one, whatever happened before |
| MemeHistory.WriteMovesCountIff | src/meme_handler.cc:304-318 | a completed write adds one if and only if its view read the present count, and lowers the count if and only if the present count is more than one above it |
| MemeStore.WriteMovesStoredCountIff | src/meme_handler.cc:304-318 | the same for the count field of the stored row and the count that the pending view holds |
| MemeStore.CountsEveryViewIff | src/meme_handler.cc:304-318 | a stored count lies between zero and the number of completed view writes to its row and equals it if and only if no write came from a view that another one had overtaken |
| MemeHistory.SequentialViewsAreClean | src/meme_handler.cc:304-318 | when the views of one meme run one after the other, whatever happens to other memes, no write to it is stale, so every one is counted |
| MemeHistory.OverlapLosesAView | src/meme_handler.cc:304-318 | two overlapping views that both complete raise the count by one, after any possible log |
| MemeHistory.OverlapLowersTheCount | src/meme_handler.cc:304-318 | a view that waits while two others complete sets the count back by one, after any possible log |
| MemeHistory.OverlapsHappen | src/meme_handler.cc:304-318 | memes can be created, and both runs are possible for each as soon as it is: two completed views leave the count 1, and a third takes it from 2 back to 1 |
| MemeStore.EveryRowIsAMeme | src/meme_handler.cc:464-471 | every reachable row has a generated id, value-class captions and the numeral of an `int`, a canonical decimal one while fewer than 2^31 view writes to it have completed |
| MemeStore.ViewsNeverFail | src/meme_handler.cc:307-333 | on reachable rows `stoi` does not throw and the "corrupted" answer does not occur |
| MemeStore.StoresNextCountIff | src/meme_handler.cc:313-318 | a completed view write stores the numeral of an `int`, for every count read; it is the count read plus one if and only if that count was not the largest `int`, and after that one the smallest |
| StableSort.SortIsStable | src/meme_handler.cc:240 | sorting is an ascending permutation that keeps the order among equal keys |
| StableSort.StableResultIsUnique | src/meme_handler.cc:240 | any two results with these properties are equal, so the library's algorithm does not matter |
| JsonStrings.ReadArrayText | src/meme_handler.cc:241-255 | quoted items joined by commas in brackets are a JSON array (RFC 8259, sections 5 and 7) of those items when none needs an escape |
| JsonStrings.ReadObjectText | src/meme_handler.cc:335-338 | members written between braces are a JSON object with exactly those members when none needs an escape |
| MemeListing.MemeList | src/meme_handler.cc:239-255 | sorts and writes the rows from last to first, with commas between; a count that is no number throws when there is something to compare |
| MemeListing.ListingOrder | src/meme_handler.cc:240-255 | the list is a permutation, never increasing in views, ties in the reverse of select order |
| MemeListing.EntrySplits | web/memes/list.js:80 | splitting an entry on colons recovers id, count, template and captions |
| MemeListing.ListingReadsBack | src/meme_handler.cc:245-255 | a list of plain rows is a JSON array with one entry per row in order, each splitting into its fields |
| MemeListing.ListingOfStoredMemes | src/meme_handler.cc:236-292 | at every moment of every run, listing all or some stored rows does not throw and is read back by the client field by field |
| MemeListing.NewestFirstAmongEquals | src/meme_handler.cc:240-255 | every such list is by views from the highest to the lowest and, among equals, the newest meme first |
| ListOrder.ListedIff | src/meme_handler.cc:67-69 | sorting throws exactly when there are two rows or more and the count of one is no number |
| ListOrder.MostViewedFirst | src/meme_handler.cc:240-255 | of any two rows listed the first has at least as many views as the other, and was selected after it if they have equally many |
| ListOrder.MostViewedThenNewest | src/meme_handler.cc:236-292 | of any two memes listed at any moment of any run the first has the higher count according to the log, or an equal one and was created later |
| MemeHandler.MemeHandler.CreateMeme | src/meme_handler.cc:88-120 | performs the store's insertion step; 201 exactly when the table changed, 400 exactly for a refused body |
| MemeHandler.MemeHandler.UpdateMeme | src/meme_handler.cc:123-163 | performs the caption step; 400 exactly for a refused body or malformed id; after success the row exists if and only if it did before, then with the captions accepted, and otherwise nothing has changed |
| MemeHandler.MemeHandler.DeleteMeme | src/meme_handler.cc:166-198 | performs the deletion step; after success no row has the id, and the table changed if and only if one had |
| MemeHandler.MemeHandler.GetMemeById | src/meme_handler.cc:296-344 | performs the view's two steps; what is shown is the row as read, whether or not the count could be stored |
| MemeHandler.MemeHandler.MemeList | src/meme_handler.cc:236-261 | answers the list of the rows selected |
| MemeHandler.IdAnswerIsObject | src/meme_handler.cc:110 | the answer that names an id is a JSON object (RFC 8259, section 4) with that one member |
| MemeHandler.MemeAnswerIsObject | src/meme_handler.cc:335-338 | the answer that shows a stored row is a JSON object with exactly template, top and bottom caption |
| MemeHandler.ViewAnswersAnObject | src/meme_handler.cc:296-344 | at every moment of every run a view finds a meme exactly when one is stored and delivered, and is answered with an object that has the stored template, top and bottom caption under their names |
| SentAndShown.SentIsShown | src/meme_handler.cc:88-344 | after a form with accepted values has been sent in any percent-encoding, to create or update a meme, and as long as its captions are neither updated nor deleted, every view in every interleaving is answered with exactly these values under their names |
| Router.RegisterIsFirstWins | src/router.cc:28-42 | a URI is mapped if and only if some route is the first to give it, and then to the handler of that route |
| Router.OnlyGivenUris | src/router.cc:45-71 | exactly the URIs of the given routes are mapped |
| Router.RecordedIsTheMap | src/router.cc:32-39 | the recorder's prefix list holds each mapped URI once, with its handler, and nothing else |
| Router.RecordedInOrder | src/router.cc:35-38 | that list is in the order of first registration |
| Router.LongestPrefixIff | src/router.cc:179-200 | exactly one string is a registered prefix of the URI at least as long as all others, or empty if there is none, so the order of the map does not matter |
| Router.Router.RegisterRoute | src/router.cc:28-42 | a new URI enters map and recorder together; a known one changes neither |
| Router.Router.RegisterRoutesFromConfig | src/router.cc:45-71 | map and recorder hold the first-wins registration of all locations of all handlers in order |
| Router.Router.LongestPrefixMatch | src/router.cc:179-200 | walking the keys in any order finds the longest registered prefix |
| Router.Router.GetHandlerConfig | src/router.cc:143-164 | the last block for the name wins |
| Router.Router.GetRouteHandler | src/router.cc:110-124 | the mapped handler, or the proxy when one of its locations is the URI, or the default |
| Router.Router.IsValidProxy | src/router.cc:273-283 | true exactly when some location of the block is the name |
| Router.Router.SelectHandler | src/router.cc:204-271 | the class and configuration for the name found through the longest prefix |
| Routing.ServedByLongestLocation | src/router.cc:45-124 | for every configuration text whose locations have values, a URI is served by the first of its longest matching locations, which exists whenever some location matches, by the default handler if none does, and the proxy fall-back never decides |
| Routing.RoutedHandlersAreConfigured | src/router.cc:143-164 | a handler that has a route has a configuration |
| Routing.ConfiguredByItsBlockIff | src/router.cc:49-68 | the block that gives a route is the one that configures its handler if and only if no later block has the name |
| Routing.RouteFromFirstConfigFromLast | src/router.cc:148-162 | a configuration whose route comes from the first of two blocks and whose handler is configured by the second |
| Serving.ServedByObject | src/router.cc:45-271 | for every configuration text whose locations have values, the last `router` block decides: a URI gets the object for the name of the handler block with the first of the longest matching locations, of the class of that name and with the last block of that name, or the default object if no location matches or the name has no class |
| Serving.RouteAt | src/router.cc:49-68 | the location at each place of the file is a route, for the handler named there |
| Serving.PlaceOfRoute | src/router.cc:49-68 | every route comes from such a place |
| Serving.RouteOrder | src/router.cc:49-68 | the routes follow the order of the file |
| RouterLocks.RequestIsNeutral | src/router.cc:95-107 | whatever branches a request takes, it takes locks in the order log, route map, configuration, leaves, and releases them all; unless it searches the proxies, the order with configuration first fits too |
| RouterLocks.RequestsAreNeutral | src/server.cc:27-40 | so do any number of requests that one thread serves in sequence |
| RouterLocks.NoRequestLocksTwice | src/router.cc:95-200 | in no interleaving of any number of threads, each serving any number of requests, does one ask for a mutex that it holds |
| RouterLocks.RequestsNeverRace | src/router.cc:95-200 | in no such interleaving are two threads about to use the data of one lock at once: whoever is owns the lock |
| RouterLocks.RequestsNeverDeadlock | src/router.cc:95-200 | in every such interleaving, while some thread is unfinished some thread can step |
| RouterLocks.RunsEnd | src/router.cc:95-107 | every run has at most as many steps as the requests have operations |
| RouterLocks.AllCanFinish | src/router.cc:95-200 | from every state of threads that keep to one order, all can still finish |
| RegistrationLocks.RegistrationGetsStuckIff | src/router.cc:45-124 | registration beside any number of requests can reach a state in which nothing can step if and only if there is a route to register and some request searches the proxies, at either look-up |
| RegistrationLocks.ClashGetsStuck | src/router.cc:45-124 | the run that gets there: the request stops in front of the configuration's lock and registration takes it |
| StatusRecorder.Recorder.RequestRecorder | src/server_status_recorder.cc:10-16 | appends one request, in step with the log of events, and changes nothing else |
| StatusRecorder.Recorder.PrefixRecorder | src/server_status_recorder.cc:18-22 | appends one prefix, in step with the log of events, and changes nothing else |
| StatusRecorder.BuildPage | src/status_handler.cc:25-69 | appends the text of the page, whose reading is given by NumberIsShown and TextShowsPageIff, or exits for a negative number |
| StatusPage.NumberIsShown | src/status_handler.cc:34-36 | the number is read back from every page's text, whatever its rows hold |
| StatusPage.TextShowsPageIff | src/status_handler.cc:33-69 | the text reads back as the page's number, its request rows and its prefix rows if and only if no cell that it shows holds a '<' |
| StatusPage.ShownAsRecorded | src/status_handler.cc:33-67 | without a '<' in them, each request is shown in order with its URL on the left and its code on the right, and each prefix with its handler on the right |
| StatusPage.RowsAsWritten | src/status_handler.cc:44-48 | one more request or prefix is one more table row with the two values in that order |
| StatusPage.TagsAreAmbiguous | src/status_handler.cc:44-48 | with a '<' in a URL one request can have the text of two |
| StatusRecorder.ListsOnlyGrow | src/server_status_recorder.cc:10-22 | at every later moment of a run the lists extend what they were |
| StatusRecorder.PageIsConsistent | src/status_handler.cc:25-67 | whatever is recorded between the reads, the number is at most the rows shown, and the rows begin with the counted requests, all of them exactly when their number fits an `int` |

## Left out

- Sockets, sessions, the accept loop, the thread pool and signals: plumbing of the network library.
- `src/request.cc`: regular expressions over the raw request; method, URI and body are inputs here.
- `src/reverse_proxy_handler.cc`, `src/static_file_handler.cc`, the echo, health and default handlers,
  `src/response.cc` and the logger: network and file access, or single-branch code.
- The dispatch of `handle_request` and `check_uri` in `src/meme_handler.cc` and the redirects: string
  comparisons that would add only easy members.
- Default headers (`register_default_header`, `get_header`): a plain map.
- `search_record`: LIKE matching belongs to the database; ListingOrder and ListingOfStoredMemes hold for
  every selection of rows, hence for a search result.
- SQLite beyond atomic statements on one table: case-insensitive names, further reserved words, the
  limit on placeholders, NULL, transactions and connections. A failing statement leaves the table alone.
- UpdateMeaning: for table and column names that are SQL identifiers and no keywords, as all names in the
  handler are; other names would be read as other text. The same holds for the other three meanings.
- GivenRow: of two values for one column in an insertion the first is taken, which the database does not
  document; no caller repeats a column.
- Bumped: the sum past the largest `int`, undefined in C++, is taken to wrap around; only logs with 2^31
  completed views of one meme reach it. StoresNextCountIff says where it begins.
- Possible: ids are taken to be fresh, as random ids are.
- HexToChar: on anything but two hexadecimal digits the result of stream extraction is a parameter, and
  every law holds for each choice of it.
- OnToken: the inline branches of the parser's loop are methods of their own here, one per kind of token.
  So is the inner loop over a statement's tokens when the settings are gathered.
- Router: its configuration is read as a value, the tree that ConfigParser.Parse is proved to build,
  instead of through shared pointers; registration is modelled on it without locks, and RouterLocks has the
  locks and the accesses to what they guard, but not the data.
- RequestsNeverRace: the block of the proxy handler is read after the configuration's lock has been
  released; that is no access here, since nothing ever writes to a configuration once it has been parsed.
- Routable: a `location` without a value is read out of bounds by the code, so routing is modelled for
  configurations in which each has one.
- ReadArray: the escape `\u` is not read; no list that the server writes contains an escape.
- The message printed when parsing fails, the opening of files, and logging.

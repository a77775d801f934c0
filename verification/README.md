# Record files and the SQL front end of the scheduler kernel, in Dafny

The C++ file layer under `engine-kernelcpp/file` reads and writes records through one interface,
whatever lies behind it: text files, keyed files, databases, zipped files. This project models the
parts of it that carry state from call to call, and proves what they keep over whole runs.

Code that changes objects step by step is a class with methods here, and each method is proved
against a function or a relation on values; lemmas then say what these functions mean.

* **Many users on one cursor** (`KeyBytes`, `KeyedFile`, `ComFile`, `ComFileRuns`). Several users
  share one keyed file that has a single cursor. The specification is one table with a private
  place per user; `ComMain.Valid` is the simulation relation, and every operation is one abstract
  step, in any interleaving. After an operation that leaves the position undefined the place is
  `Lost`, and a read from there may deliver any record. Deletes, inserts, stores, keyed lookups
  that fail and reopening are operations of the model as well.
* **Buffered record files** (`RecordFormat`, `SortedRecords`, `RecordFrames`, `StdFile`,
  `StdFileRuns`, `KeyedRuns`). Lines with tabs, and records behind a three-byte length, read
  through a buffer that is filled by reads of any size. `read` returns any non-empty prefix of
  what is asked for, and nothing at the end of the file only.
* **The SQL front end** (`SqlChars`, `SqlDialect`, `StmtSpec`, `ConvertStmt`, `DateCalls`,
  `PlainStmts`, `PlainResults`, `Brackets`, `BracketParts`, `LimitParts`, `SourceParts`,
  `OdbcStatements`, `OdbcNesting`, `OdbcCases`, `StatementSplitter`, `OracleThin`, `Sessions`):
  the statement splitter, the dialect translator with its recursion into arguments, Oracle's
  timestamps, and the registry of shared sessions.
* **Sequences and options** (`Sequences`, `Wrappers`).
* **Storing rows** (`SqlTables`, `SqlFile`): the two ways to store a row over a database in which
  any statement, and commit and rollback too, may fail.
* **Adapters** (`LineStream`, `KeyType`, `GzipHeader`): a character stream on records, the type of
  a key cut out of a nested record type, and the gzip header of section 2.3 of RFC 1952.

## Where the code does not do what one would expect

Each of these is kept as the code has it, with the exact condition under which the expected
property holds.

* Reading on at the end of a shared file: an increment that fails leaves its wrapped result in the
  key, so a later read may start over at the front (`ComFileRuns.GetTwiceAtEnd`,
  `ComFileRuns.ReadOnAndOn`).
* `flush_read_buffer` forgets the read pointer but not the length of the buffer, so a seek right
  after a seek may point into bytes that are not there (`StdFile.StdFile.BufferSeek`). So may `set`
  with a key beyond the last record (`StdFile.StdFile.Set`), and looking up the current key after a
  read that ran into the end (`StdFile.StdFile.SeekToCurrent`). Runs that avoid these deliver what
  the records say (`KeyedRuns.Run`).
* A line that ends in CR, holds a tab that is expanded, or holds a line feed does not come back as
  it was written (`StdFileRuns.WriteThenRead`, `RecordFrames.LinesRoundTrip`).
* The comment in `stdfile.cxx` calls the three length bytes little-endian; the code reads and writes
  the most significant byte first, and so does the model.
* Deleting and inserting agrees with updating only if no value is lost that way
  (`SqlTables.StrategiesAgreeIff`).
* `update_direct` asks the last statement how many rows it met. With auto-commit outside a store that
  is the commit, so that a missing row goes unnoticed exactly there, unless the database reports it
  itself (`SqlFile.SqlFile.UpdateDirect`).
* A profile that replaces user or qualifier makes the registry create a second session for a target
  it already serves (`Sessions.TwoSessionsForOneTarget`).
* An unquoted brace that does not open a timestamp stops the Oracle rewriting for ever, in statements
  that hold the opening of a timestamp anywhere (`OracleThin.DivergesIff`).
* An ODBC function name without a parenthesis leaves its brace open (`OdbcCases.BareNameStaysOpen`),
  a rewritten word with too many arguments closes a parenthesis twice (`OdbcCases.TooManyArguments`),
  and the parentheses that a row limit puts around a statement may cross its braces
  (`OdbcCases.BraceAcrossLimit`) or make up for wrong brackets (`OdbcCases.WrappedRight`).
  `OdbcNesting.TranslationNestsIff` says exactly when the brackets of the output nest, for every
  database, and `OdbcNesting.TranslationNestsIffSourceDoes` when that is when the source's do.
* `build_key_type` starts the outermost record at offset 0 without subtracting that record's own
  base, while nested records have theirs subtracted (`KeyType.BaseIsIgnored`); the places are right
  exactly if that base is zero or there are no leaves (`KeyType.TrueToPlacesIff`).

## Model

| member | source | states |
|---|---|---|
| `KeyBytes.Incr` | engine-kernelcpp/kram/area.cxx:563-576 | In place, the bytes become the big-endian number plus one, and overflow is reported exactly when a carry leaves the front. |
| `KeyBytes.OverflowMeansGreatest` | engine-kernelcpp/file/comfile.cxx:299-335 | The increment overflows exactly on a key of 255s, no key of that length is greater, and what is left behind is all zeros. |
| `KeyBytes.Plus1Adds` | engine-kernelcpp/kram/area.cxx:563-576 | The number the bytes stand for grows by one, modulo the power of 256, and it wraps exactly on overflow. |
| `KeyBytes.LessIsSmaller` | engine-kernelcpp/file/stdfile.cxx:684-728 | The order in which keys of one length are compared is the order of these numbers. |
| `KeyBytes.AfterIsAtOrAfterPlus1` | engine-kernelcpp/file/comfile.cxx:299-335 | Being strictly after `k` in byte order is being at or after `k + 1`. |
| `KeyedFile.ReadAfterIsReadAtPlus1` | engine-kernelcpp/file/comfile.cxx:299-335 | The first record after key `k` is the first at or after `k + 1`; if the increment overflows there is none. |
| `KeyedFile.ReadIsNext` | engine-kernelcpp/file/comfile.cxx:299-335 | A sequential read delivers the record with the least key the position reaches, which is unique. |
| `KeyedFile.KeyedFile.Store` | engine-kernelcpp/file/absfile.cxx:226-241 | A keyed get, then update or insert: exactly one entry of the table is set, and the cursor is after that key if it was there before. |
| `ComFile.ComFile.constructor` | engine-kernelcpp/file/comfile.cxx:229-245 | A new user joins at the start of the file and disturbs nobody's place. |
| `ComFile.ComFile.Rewind` | engine-kernelcpp/file/comfile.cxx:259-273 | One abstract step: this user's place becomes the least key, all other places and the table stay. |
| `ComFile.ComFile.Set` | engine-kernelcpp/file/comfile.cxx:426-436 | One abstract step: this user's place becomes the key. |
| `ComFile.ComFile.Reposition` | engine-kernelcpp/file/comfile.cxx:299-320 | The real cursor is brought to where this user resumes; when the key cannot be incremented nothing moves and the key is left at zero. |
| `ComFile.ComFile.ResumesAtPlace` | engine-kernelcpp/file/comfile.cxx:299-320 | Wherever the shared cursor is, what the private fields make the user resume at reads the same record as the user's abstract place. |
| `ComFile.ComFile.StaysValid` | engine-kernelcpp/file/comfile.cxx:299-335 | A step of one user keeps the simulation for all others, whoever owns the cursor afterwards. |
| `ComFile.ComFile.GetRecord` | engine-kernelcpp/file/comfile.cxx:299-335 | One abstract step: the record a user with a cursor of its own would get, at the end of the file too; nobody else's place changes. |
| `ComFile.ComFile.GetRecordKey` | engine-kernelcpp/file/comfile.cxx:371-383 | One abstract step: the record under the key or not found, and the place is after the key or lost. |
| `ComFile.ComFile.Update` | engine-kernelcpp/file/comfile.cxx:395-414 | One abstract step with or without the cursor: the record read last, or the one under the key set last, is replaced, or inserted where it is missing; another key is refused and nothing changes; after a read every place survives. |
| `ComFile.ComFile.Insert` | engine-kernelcpp/file/comfile.cxx:387-391 | One abstract step that adds a record or reports a duplicate, and loses this user's place only. |
| `ComFile.ComFile.Store` | engine-kernelcpp/file/comfile.cxx:418-422 | One abstract step that sets one entry and loses this user's place only. |
| `ComFile.ComFile.Delete` | engine-kernelcpp/file/comfile.cxx:440-448 | One abstract step that removes one entry or reports not found. |
| `ComFile.ComFile.DeleteCurrent` | engine-kernelcpp/file/comfile.cxx:452-461 | One abstract step that removes the record this user read last, or the one under the key it set last, with or without the cursor. |
| `ComFile.ComFile.Reopen` | engine-kernelcpp/file/comfile.cxx:229-245 | Opening again keeps the simulation but loses the place: `_last_user` still names the user although its key was reset. |
| `ComFileRuns.Run` | engine-kernelcpp/file/comfile.cxx:259-461 | Every interleaved run of any number of users is a run of the abstract machine, with these outcomes, this table and these places. |
| `ComFileRuns.ReadsAsIfAlone` | engine-kernelcpp/file/comfile.cxx:299-335 | Take out the calls of all others, who only read: the user's outcomes and final place are the same. |
| `ComFileRuns.OutcomesAreDetermined` | engine-kernelcpp/file/comfile.cxx:299-335 | As long as nobody reads on from a lost place, two runs of the same calls have the same outcomes. |
| `ComFileRuns.SeesWhatItWouldAlone` | engine-kernelcpp/file/comfile.cxx:259-436 | While the others only read, a user that never reads on from a lost place has, call for call, the outcomes of any run of its calls with nobody else. |
| `ComFileRuns.GetTwiceAtEnd` | engine-kernelcpp/file/comfile.cxx:304-320 | After an end of file a second read finds the end again if and only if the key read last is not all 255s or no record is at or after key one. |
| `ComFileRuns.ReadOnAndOn` | engine-kernelcpp/file/comfile.cxx:299-335 | However often a user reads on at the end while another takes the cursor, it finds the end until the key has counted up to its wrap-around, and then starts over if and only if a record is at or after key one. |
| `StdFile.AppendExpanded` | engine-kernelcpp/file/stdfile.cxx:571-591 | Tabs are expanded to the next multiple of 8 of the record's column, across every cut into chunks. |
| `StdFile.StdFile.BufferSeek` | engine-kernelcpp/file/stdfile.cxx:744-766 | The next byte comes from the target; the buffer shows the file afterwards if and only if it was in use or the target is outside its old window. |
| `StdFile.StdFile.Refill` | engine-kernelcpp/file/stdfile.cxx:515-553 | A used-up buffer is replaced by the bytes that follow; none are left exactly at the end of the file. |
| `StdFile.StdFile.GatherLine` | engine-kernelcpp/file/stdfile.cxx:510-596 | For every chunking, the bytes collected make the line that starts here; whether a line feed ended it decides about the CR. |
| `StdFile.StdFile.GetLine` | engine-kernelcpp/file/stdfile.cxx:482-606 | The record and the next position are those of the line in the file, an unterminated last line included. |
| `StdFile.StdFile.GetSam3` | engine-kernelcpp/file/stdfile.cxx:482-606 | The record behind its three length bytes, however they are cut, and the position after it. |
| `StdFile.StdFile.GetRecord` | engine-kernelcpp/file/stdfile.cxx:482-640 | One scan step on the bytes of the file; the position key is where the record starts, the current key is the record's. |
| `StdFile.StdFile.SetPosition` | engine-kernelcpp/file/stdfile.cxx:644-667 | A position key moves the file there, soundly if and only if `BufferSeek` is. |
| `StdFile.StdFile.GetRecordKey` | engine-kernelcpp/file/stdfile.cxx:671-740 | On an ascending file, the record is delivered if and only if it exists, whether it is read again, searched from here or from the front; the file stops behind the first record at or after the key. |
| `StdFile.StdFile.SeekToCurrent` | engine-kernelcpp/file/stdfile.cxx:688-691 | After a read that ran into the end, looking up the current key points to the front of the bytes read last, unless that read started before the end of the bytes. |
| `StdFile.StdFile.Set` | engine-kernelcpp/file/stdfile.cxx:644-667 | The next record is the first at or after the key; beyond the last record the seek is sound if and only if the read that failed started before the end of the bytes or nothing was ever buffered, for lines if and only if the file is empty. |
| `StdFile.StdFile.PutRecord` | engine-kernelcpp/file/stdfile.cxx:770-800 | The framed record is appended to the file, or it is refused exactly when it holds a line feed that is not allowed. |
| `StdFile.StdFile.WriteRecord` | engine-kernelcpp/file/stdfile.cxx:804-827 | The bytes written are the record in its frame. |
| `SortedRecords.ReadStaysOnTrack` | engine-kernelcpp/file/stdfile.cxx:482-640 | Reading in sequence, the current key stays that of the record read last, and the place before or behind it. |
| `SortedRecords.PresentIffAtRank` | engine-kernelcpp/file/stdfile.cxx:684-728 | A key is in an ascending file exactly when the first record at or after it has that key. |
| `SortedRecords.BackToRecord` | engine-kernelcpp/file/stdfile.cxx:656-660 | Going back to where the last read started puts the reader before that very record. |
| `RecordFrames.LinesRoundTrip` | engine-kernelcpp/file/stdfile.cxx:804-827 | Records written as lines are read back unchanged if and only if none holds a line feed, a tab that is expanded, or a CR that is taken for part of the line end. |
| `RecordFrames.Sam3RoundTrip` | engine-kernelcpp/file/stdfile.cxx:804-827 | Records behind three length bytes are read back unchanged if and only if all are shorter than 2^24. |
| `StdFileRuns.ReadAll` | engine-kernelcpp/file/stdfile.cxx:482-606 | Successive reads deliver the records of the bytes, the same for every chunking. |
| `StdFileRuns.WriteThenRead` | engine-kernelcpp/file/stdfile.cxx:770-827 | Both round trips, through the writing and the buffered reading code. |
| `StdFileRuns.Replay` | engine-kernelcpp/file/stdfile.cxx:482-766 | In any run of reads and returns to bookmarks with a read between two returns, the buffered reader does what an unbuffered one does. |
| `StdFileRuns.BookmarkReturnsItsRecord` | engine-kernelcpp/file/stdfile.cxx:618-640 | Going back to any position key and reading on yields the record it came with, after every run. |
| `KeyedRuns.Run` | engine-kernelcpp/file/stdfile.cxx:482-766 | Every run of reads, lookups and positionings by key on an ascending file has the outcomes that the records and the ranks of the keys determine, for every chunking; which runs are admitted depends on the moves and the records alone. |
| `KeyedRuns.LookupAndPosition` | engine-kernelcpp/file/stdfile.cxx:644-740 | After any such run a lookup finds a record if and only if one has the key, and positioning makes the next read deliver the first record at or after the key. |
| `StmtSpec.ArgumentEndsAtFirst` | engine-kernelcpp/file/sosdb.cxx:699-752 | An argument ends at the first comma or closing parenthesis at depth 0, or with the text. |
| `StmtSpec.Step` | engine-kernelcpp/file/sosdb.cxx:908-1102 | Every branch of the main loop moves on, stays in the text, and keeps the count of parentheses equal to the size of the stack, so that the stack never underflows. |
| `StmtSpec.ArgumentList` | engine-kernelcpp/file/sosdb.cxx:671-695 | Exactly the number of arguments asked for, missing ones empty, and the text is consumed up to a place inside it. |
| `ConvertStmt.ParseArgument` | engine-kernelcpp/file/sosdb.cxx:699-752 | The counting loop finds the specified end, and the argument is the translated, trimmed text before it. |
| `ConvertStmt.ParseArgumentList` | engine-kernelcpp/file/sosdb.cxx:671-695 | The loop yields the specified arguments, end, or error. |
| `ConvertStmt.ConvertStmt` | engine-kernelcpp/file/sosdb.cxx:868-1108 | The translator ends on every statement, mutual recursion included, and gives the specified text or error. |
| `DateCalls.DateTranslatedIff` | engine-kernelcpp/file/sosdb.cxx:558-605 | A date or timestamp is translated exactly where one is written in full, blanks allowed: to the literal of the very date between the quotes, and the call is consumed to its closing parenthesis. |
| `PlainStmts.PlainConvert` | engine-kernelcpp/file/sosdb.cxx:868-1108 | A statement with percent signs in literals and quoted identifiers only, other than CREATE and ALTER, never fails and becomes a character-by-character image of itself. |
| `PlainResults.UnchangedIff` | engine-kernelcpp/file/sosdb.cxx:908-1102 | For dialects with plain quotes and bars, the statement is unchanged but for blanks on the left if and only if no back-tick stands outside literals and no small letter in a quoted identifier. |
| `PlainResults.ConvertTwice` | engine-kernelcpp/file/sosdb.cxx:868-1108 | For such dialects translating a second time changes nothing. |
| `PlainResults.LiteralsVerbatim` | engine-kernelcpp/file/sosdb.cxx:910-932 | For such dialects the string literals come out as they went in, unterminated ones included. |
| `PlainResults.MySqlReadsTheLiterals` | engine-kernelcpp/file/sosdb.cxx:910-932 | Read with backslash escapes, the output has exactly the literals of the source: every body decodes to itself, and no body swallows its closing quote. |
| `PlainResults.LiteralsSurvive` | engine-kernelcpp/file/sosdb.cxx:868-1108 | Both of these for whole statements. |
| `OdbcNesting.TranslationNestsIff` | engine-kernelcpp/file/sosdb.cxx:868-1108 | For every database, the braces and parentheses of the output nest if and only if those of the source do, as it is sent: a function name without a parenthesis counts as an open brace, a rewritten word counts as nothing, with the arguments the program takes for it, and where the program puts parentheses around limited parts, each of these nests between them. |
| `OdbcNesting.TranslationNestsIffSourceDoes` | engine-kernelcpp/file/sosdb.cxx:868-1108 | Where limits are written into the statement, the output nests if and only if the source does. Where they put parentheses around it, it does if and only if the source does and no brace is open at a set operator behind a limit; only a statement whose brackets are wrong and whose last part is limited may nest as it is sent and not in the source. |
| `OdbcNesting.FollowLimitedEnd` | engine-kernelcpp/file/sosdb.cxx:1063-1076 | At a set operator behind a row limit, what has been written so far keeps the brackets of what has been read, wrong ones included, where limits are written into the statement. |
| `OdbcNesting.PartLimitedEnd` | engine-kernelcpp/file/sosdb.cxx:1063-1076 | Where limits put parentheses around it, the part before a set operator nests if and only if nothing is open there and nothing was wrong; else the output is wrong for good. |
| `OdbcStatements.StepInside` | engine-kernelcpp/file/sosdb.cxx:908-1102 | The translator does the same inside one more open parenthesis, up to the one that closes it: it never looks at what is open further out. |
| `OdbcNesting.ArgumentsNeutral` | engine-kernelcpp/file/sosdb.cxx:671-752 | Arguments that nest by themselves in the source are translated to text that may stand inside any brackets. |
| `OdbcNesting.SimulateClose` | engine-kernelcpp/file/sosdb.cxx:1049-1056 | A closing parenthesis closes the function it belongs to, brace included, and a wrong one in the source is a wrong one in the output. |
| `OdbcNesting.SimulateUntranslated` | engine-kernelcpp/file/sosdb.cxx:1014-1039 | An unknown percent word keeps source, output and stack in step: the flag that is pushed is that of the brace that was written. |
| `OdbcCases.TranslationNestsIffBracketsDo` | engine-kernelcpp/file/sosdb.cxx:868-1108 | Where no rewritten word has surplus arguments, it is every bracket of the source, character by character, that decides. |
| `OdbcCases.BareNameStaysOpen` | engine-kernelcpp/file/sosdb.cxx:1024-1056 | The statement `%f` is one whose output does not nest. |
| `OdbcCases.TooManyArguments` | engine-kernelcpp/file/sosdb.cxx:671-695 | The statement `%texttimestamp(,)` is another: its brackets nest, but its parenthesis is closed twice in the output. |
| `OdbcCases.BraceAcrossLimit` | engine-kernelcpp/file/sosdb.cxx:1063-1076 | For Oracle, `{%limit(1)union}` is one whose brackets nest and whose brace is crossed by the parentheses of the limit. |
| `OdbcCases.WrappedRight` | engine-kernelcpp/file/sosdb.cxx:768-775 | For Oracle, the translation of `)%limit(1)(` nests although the statement does not: its last part is limited and starts with a wrong bracket. |
| `LimitParts.LimitInserts` | engine-kernelcpp/file/sosdb.cxx:768-807 | Every database but Oracle is sent the limited statement with text written into it that is neither bracket nor quote. |
| `LimitParts.WrappedScan` | engine-kernelcpp/file/sosdb.cxx:768-775 | Oracle's limited statement has the brackets of the statement, whatever they are, between two parentheses. |
| `BracketParts.TextTimestampNeutral` | engine-kernelcpp/file/sosdb.cxx:609-644 | Whatever a database is sent around the argument of a timestamp function, it may stand inside any brackets if the argument may. |
| `BracketParts.SecondsDiffNeutral` | engine-kernelcpp/file/sosdb.cxx:648-667 | The same for the difference of two times. |
| `BracketParts.NestedSlice` | engine-kernelcpp/file/sosdb.cxx:699-752 | An argument looked at on its own has the same brackets as inside the statement, although the scanners read ahead. |
| `StatementSplitter.SkipQuoted` | engine-kernelcpp/file/sosdb.cxx:431-445 | Stepping over a literal, doubled quotes and a missing end included, loses no cut of the plain toggle automaton. |
| `StatementSplitter.SplitStatements` | engine-kernelcpp/file/sosdb.cxx:421-453 | The statements executed are the pieces the toggle automaton cuts at semicolons outside quotes. |
| `StatementSplitter.ExecuteDirect` | engine-kernelcpp/file/sosdb.cxx:396-453 | Text behind the prefix is one statement, all other text is cut. |
| `StatementSplitter.SplitThenJoin` | engine-kernelcpp/file/sosdb.cxx:421-453 | The pieces joined by semicolons are the text, but for one semicolon at its end, which is there if the last piece is empty. |
| `StatementSplitter.SplitIsCuttable` | engine-kernelcpp/file/sosdb.cxx:421-453 | No piece holds a semicolon outside quotes, and all but the last close their quotes. |
| `StatementSplitter.JoinThenSplit` | engine-kernelcpp/file/sosdb.cxx:421-453 | Joined pieces are cut into the same pieces if and only if none holds an outer semicolon, all but the last close their quotes, and the last is not empty. |
| `Sessions.Client.Close` | engine-kernelcpp/file/sosdb.cxx:235-252 | A closed session leaves its slot, and counts and all other slots stay right. |
| `Sessions.Client.Disconnect` | engine-kernelcpp/file/sosdb.cxx:1385-1405 | The file lets go of its session, whose count drops; the session is closed only if nobody holds it any more. |
| `Sessions.Client.GetSession` | engine-kernelcpp/file/sosdb.cxx:1300-1366 | The file holds a session that serves it: a registered one if there is one, else a new one, registered only if it connects. |
| `Sessions.Client.Connect` | engine-kernelcpp/file/sosdb.cxx:1300-1366 | If the profile leaves the target as it is, registered sessions stay unique per target and access. |
| `Sessions.Run` | engine-kernelcpp/file/sosdb.cxx:1300-1405 | In every run of connects and disconnects, under every profile, counts equal holders and registered sessions sit in the slots they name; if the profile leaves the targets as they are, each named target has at most one writable and one other registered session. |
| `Sessions.TwoSessionsForOneTarget` | engine-kernelcpp/file/sosdb.cxx:1300-1366 | For every profile that replaces something of a target, two files suffice to break that uniqueness. |
| `SqlTables.StoreReplacesOneRow` | engine-kernelcpp/file/sqlfile.cxx:933-964 | Either way of storing keeps all other rows and leaves the stored values in the row of the key. |
| `SqlTables.StrategiesAgreeIff` | engine-kernelcpp/file/sqlfile.cxx:933-964 | Deleting and inserting ends in the same table as updating if and only if the key is new, or no read-only value and no value left out is changed by going back to the database's fallback. |
| `SqlFile.SqlFile.ExecuteStmt` | engine-kernelcpp/file/sqlfile.cxx:1001-1023 | With auto-commit and outside a store, the committed table takes the statement's whole effect or none, and has it on success; after a failure the transaction shows what is committed, unless the rollback failed. Otherwise nothing is committed and a failing statement changes nothing. |
| `SqlFile.SqlFile.UpdateDirect` | engine-kernelcpp/file/sqlfile.cxx:868-929 | Inside a store or outside: the row of the key takes the record's values and keeps its other columns; a missing row is reported if and only if the statement is not committed at once or the database reports it itself. |
| `SqlFile.SqlFile.InsertRecord` | engine-kernelcpp/file/sqlfile.cxx:715-795 | Inside a store or outside, NULL in the key included: a new row with the record's values and the fallbacks of columns left out, if its key is free. |
| `SqlFile.SqlFile.Del` | engine-kernelcpp/file/sqlfile.cxx:968-981 | Inside a store or outside: the row of the key and no other is removed, and not found is reported only if it was not there. |
| `SqlFile.SqlFile.Store` | engine-kernelcpp/file/sqlfile.cxx:933-964 | With auto-commit the committed table ends unchanged or with exactly this record stored, whatever statement fails; success means stored. |
| `SqlFile.StoreAll` | engine-kernelcpp/file/sqlfile.cxx:933-964 | Over a run of stores with failures anywhere, the committed table is what some of the records, stored whole and in order, make of it, all acknowledged ones among them. |
| `OracleThin.ModifyOracleThinStmt` | engine-kernelcpp/file/jdbc.cxx:527-573 | The loops produce the rewriting of the text up to its first NUL, or the text as it is if no timestamp opens in it; they have no result exactly if the outer loop never ends. |
| `OracleThin.LoopRewrites` | engine-kernelcpp/file/jdbc.cxx:539-570 | Some number of rounds of the outer loop ends with the rewriting, or after every number of rounds there is another: it stands at a brace where a round changes nothing. |
| `OracleThin.RewritesOnlyTimestamps` | engine-kernelcpp/file/jdbc.cxx:527-573 | In text made of plain text, literals and timestamps, timestamps become calls and everything else is kept; what follows is rewritten on its own. |
| `OracleThin.DivergesIff` | engine-kernelcpp/file/jdbc.cxx:527-573 | The program runs for ever if and only if a timestamp opens somewhere in the text and, behind well-formed segments, an unquoted brace opens something else. |
| `LineStream.Writer.Overflow` | engine-kernelcpp/file/flstream.cxx:113-150 | Records put plus buffered text are what was written; no line feed stays in the buffer; without a character the rest is put as well. |
| `LineStream.Writer.CutLines` | engine-kernelcpp/file/flstream.cxx:124-134 | The records put are exactly the complete lines of the text, and the buffer is left with what follows them. |
| `LineStream.Writer.Flush` | engine-kernelcpp/file/flstream.cxx:79-85 | All lines are put and nothing is left. |
| `LineStream.Run` | engine-kernelcpp/file/flstream.cxx:79-150 | However characters come, through the put area or `overflow`, and wherever the stream is flushed, the records are the lines of each flushed stretch. |
| `LineStream.Reader.Underflow` | engine-kernelcpp/file/flstream.cxx:89-109 | The first character still ahead, without taking it, or none exactly at the end of the records. |
| `LineStream.CutOn` | engine-kernelcpp/file/flstream.cxx:113-150 | Cutting a text into lines may be interrupted anywhere and continued with what was left over. |
| `LineStream.CutKeepsText` | engine-kernelcpp/file/flstream.cxx:113-150 | No character is lost or added by cutting. |
| `LineStream.LinesHoldNoFeed` | engine-kernelcpp/file/flstream.cxx:113-150 | No line holds a line feed. |
| `LineStream.LinesReadBack` | engine-kernelcpp/file/flstream.cxx:89-109 | The lines read back are the text, with a line feed added exactly if its last line had none. |
| `LineStream.WriteThenRead` | engine-kernelcpp/file/flstream.cxx:89-150 | What is written in any pattern and flushed once is read back, up to one line feed at its end. |
| `KeyType.BuildKeyType` | engine-kernelcpp/file/anyfile.cxx:643-669 | The recursion appends exactly the specified fields to the key type and keeps its size that of its fields, 32-bit wrap-around included. |
| `KeyType.KeyHoldsTheLeaves` | engine-kernelcpp/file/anyfile.cxx:643-669 | For every nested record type whose fields lie in their records, the leaves of the added fields are the leaves wholly inside the key, each once, in order, at their absolute place minus the key's; places count from the outermost record's own offset 0. |
| `KeyType.TrueToPlacesIff` | engine-kernelcpp/file/anyfile.cxx:643-694 | Counted from the outermost record's first byte, the places are right for every key if and only if that record's base is zero or it has no leaves. |
| `KeyType.BaseIsIgnored` | engine-kernelcpp/file/anyfile.cxx:643-694 | A record of one leaf with base 1 gets no field for the key at its first byte. |
| `KeyType.KeyHoldsTheFields` | engine-kernelcpp/file/anyfile.cxx:643-669 | A field of any depth is in the key type if and only if it is in the record at that place, counted in the same way, and inside the key. |
| `KeyType.KeyFieldsApart` | engine-kernelcpp/file/anyfile.cxx:643-669 | The added fields lie in the key, and do not overlap if the record's fields do not. |
| `GzipHeader.ZlibFile.ReadHeader` | engine-kernelcpp/file/zlibfl.cxx:262-314 | The steps through the buffer have the specified outcome, and the file passes data through exactly when the magic is missing in automatic mode. |
| `GzipHeader.ZlibFile.WriteHeader` | engine-kernelcpp/file/zlibfl.cxx:241-258 | The buffer starts with the ten bytes of a header without optional parts. |
| `GzipHeader.ReadsEveryHeader` | engine-kernelcpp/file/zlibfl.cxx:262-314 | Every header of section 2.3 of RFC 1952, with any optional parts, that has a byte behind it is read to exactly its end. |
| `GzipHeader.ReadsOnlyHeaders` | engine-kernelcpp/file/zlibfl.cxx:262-314 | What is accepted is the encoding of a header. |
| `GzipHeader.FindsExactlyTheHeaders` | engine-kernelcpp/file/zlibfl.cxx:262-314 | The reader returns `n` if and only if the first `n` bytes are a header and the data go on behind them. |
| `GzipHeader.WriteThenRead` | engine-kernelcpp/file/zlibfl.cxx:241-314 | The header that is written is found to be 10 bytes long, whatever data follow. |

## Left out

- All of the Java proxies, the rest of `jdbc.cxx` and `odbc.cxx`, mail, object and head files,
  aliases: generated or foreign calls, and option parsing.
- The one-record lookahead of `eof` and `file_as_string` in `anyfile.cxx`: short buffer loops.
- The rewriting of field lists for `-key`, `-fields` and `-flat`.
- Shared files: `get_until`, `get_position` and files without a key are not modelled, and neither is
  the option that lets one user own the file. The key position and length do not change after the
  first open. The keyed file underneath is an environment: a sorted table with a cursor.
- Record files: fixed-length records, an end character other than the line feed, `-key-end`, keyed
  reads without an emulated key, seeks after writes and `update` in text mode. Writing is unbuffered,
  as the constructor of the program sets it.
- StdFile.StdFile.Set: keys have their full length, as for the lookup it makes.
- StdFile.StdFile.GetRecordKey: keys have their full length, because the program compares that many
  bytes of a shorter key with the current one and reads behind its end; and the current key is not
  looked up after a read that ran into the end (`SeekToCurrent` shows what happens then).
- Character classes and upper case are those of ASCII. The text is followed by one sentinel that is
  no letter, digit, blank or bracket, as the end of the program's buffer is.
- The table of words per database is a parameter, and so are the current time and the parsing and
  printing of dates.
- OdbcNesting.TranslationNestsIff: leaves out statements in which an argument of a rewritten word, as the
  program cuts it, does not nest by itself, because it is written into parentheses of the program's, and
  those in which a precision that is dropped has no closing parenthesis. A statement behind `%native` is
  sent as it is, and not looked at. Identifiers are quoted with double quotes or back-ticks: a driver
  that names no such quote, or a bracket, leaves identifiers that cannot be told from other text. Words
  of the dialect nest.
- OdbcNesting.TranslationNestsIffSourceDoes: leaves out the same statements.
- OdbcCases.TranslationNestsIffBracketsDo: leaves out the same statements, and does not say that the
  brace of a function follows its own parenthesis directly.
- Row limits are unbounded numbers; the program's are 32-bit.
- `execute_direct` has a faster scan for one processor type; only the portable one is modelled.
- Sessions: errors while closing, waiting and retrying while opening, and the commit and rollback of
  sessions shared by several files. `_equal_session` always agrees.
- Databases: a statement has its full effect or none; commit and rollback may fail, and leave the number
  of rows unknown. Key columns can be written. Column types,
  text of values, `_extra` columns and empty strings stored as NULL are not modelled; records have a
  value or NULL for every column.
- Oracle's timestamps: locale and conversion between character sets.
- The stream: characters are 7-bit, as a byte of 255 is taken for the end of the stream.
- KeyType.BuildKeyType: does not model null flags, because added fields have none.
- GzipHeader.ZlibFile.ReadHeader: a read beyond the memory of the buffer, which the program does not
  guard against, is an outcome of its own, because what it yields is not defined.
- Compression itself, checksums, real file handles, logging and locks.

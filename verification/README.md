# sqlite4a: ownership, cursors and value transport

sqlite4a is a thin JNI binding over SQLite. This project models the state the binding itself keeps and the
contract it has to respect towards the library, and proves what holds over every run.

The library is an environment: its result codes, the addresses of new objects and the failures of single
steps are parameters, limited only by what `sqlite3.h` documents.

## The three parts

**Ownership** (`Ownership.dfy`, `OwnershipRuns.dfy`, `Registrations.dfy`, `TraceCallbacks.dfy`, `ErrorTexts.dfy`,
`Discipline.dfy`, `Teardown.dfy`, `Natives.dfy`). A world holds library connections (wrapped, zombie, or left by a failed open), prepared
statements, native `SQLiteDb` structs, installed functions and collations, trace registrations and JNI global
references. `Apply` says what one call does to it. `Natives.Process` carries the same state in mutable fields
and runs the native methods step by step, with the destructor loop of a connection; each native is proved to
have exactly the effect of its event, and may delete a global reference only where it is proved live. The
theorems about runs are about arbitrary sequences of events that caller and environment are allowed to issue
(`Legal`).

**Statements and cursors** (`Cursors.dfy`, `SharedCursors.dfy`, `Statements.dfy`, `Transfers.dfy`). `Cursors` is
the pure state machine of one statement seen through one iterator; for any sequence of `hasNext` and `next`
calls it gives every single answer from the calls alone. `SharedCursors` lets any number of iterators,
`select()` and `clearBindings()` interleave on one statement. `Statements` holds the mutable classes: the
library's statement, `SQLiteStmt` and `RowIterator`, which share one statement object. `Transfers` holds the
client sequences: append tuples, drain a select, run a query or an update with bound parameters.

**Value transport** (`ModifiedUtf8.dfy`, `StandardUtf8.dfy`, `Collation.dfy`, `DoubleTransport.dfy`,
`Marshalling.dfy`). Strings cross as modified UTF-8 (section 4.4.7 of the Java Virtual Machine Specification),
numbers of `execForNumber` cross as doubles (section 4.3.1 of IEEE 754), function arguments cross as pointers
in Java longs.

`Options`, `JavaTypes`, `ResultCodes` and `Counting` are shared vocabulary and finite-map facts; `KnownFaults`
holds the concrete inputs of the next section.

## Where the code falls short of a promise

Each of these keeps the code as it is, shows an input (in `KnownFaults`), and proves exactly when the promise
does hold.

- `sqlite3.h` tells callers of `sqlite3_create_collation_v2` to dispose of the data pointer themselves on
  failure; `nativeCreateCollation` does not, so every failed call leaves one global reference for good.
  Input: `FailedCollationLeaksReference`; exact: `EventStray`, `ReferenceConservation`.
- `sqlite3.h` says the handle of a failed open should be closed; `nativeOpen` does not, so every failed open
  that returned a handle leaves one connection. Input: `FailedOpenLeaksConnection`; exact:
  `ConnectionConservation`.
- `nativeClose` deletes the trace reference but leaves the callback registered, so a zombie connection traces
  with a deleted reference. `nativeTrace` deletes the old reference before it asks the library, so a failed
  `trace()` of a traced `SQLiteDb` leaves a registration with a deleted reference if the library keeps the old
  registration when it fails; whether it does is not documented, and both answers are modelled. Inputs:
  `ZombieTracesWithDeletedReference`, `FailedTraceLeavesDeletedReference`; exact: `TraceGuard` for one call,
  `TraceSafetyAlways` for a run, `TraceSafety` for its end, each told from the calls alone.
- `nativeInsert` and `nativeExecute` ask the connection for its error text after finalizing the statement. That
  connection is gone exactly when its `SQLiteDb` was closed before and this was its last statement. Input:
  `LateExecuteAsksDeadConnection`; exact: `ErrorTextFromCalls`.
- `sqlite3_bind_text` is documented for UTF-8. What the binding hands over is UTF-8 exactly when the string has
  no U+0000 and no surrogate; text of other programs is readable exactly up to its first zero byte and without
  four-byte sequences. Inputs: `BoundTextIsNotUtf8`, `FourByteTextIsUnreadable`; exact: `EncodeIsUtf8`,
  `ForeignTextReadsBack`.
- A step that fails inside `hasNext` is reported as "no more rows", and one more `hasNext` starts over. Input:
  `FailedStepEndsSelect`; exact: `Transfers.Drain` (complete if and only if no step onto a row fails),
  `FailureRestarts`.
- A row is a view of the shared statement: the row that `next` hands out is the one its own `hasNext` announced
  exactly when nothing stepped or reset the statement between. Inputs: `SharedIteratorsTakeTheSameRow`,
  `SelectTakesTheRowAway`; exact: `NextGivesAnnouncedRow`.
- `execForNumber` returns an integer unchanged exactly when no bit of it is below the last of the 53 a double
  has, or when it is the largest long. Input: `LargeIntegerChanges`; exact: `NumberExact`.

## Model

| member | source | states |
|---|---|---|
| `ModifiedUtf8.DecodeEncode` | sqlite4a/src/main/cpp/sqlite3_jni.cc:303-312 | decoding the modified UTF-8 of any Java string, with NUL and unpaired surrogates, gives the string back |
| `ModifiedUtf8.EncodeInjective` | sqlite4a/src/main/cpp/sqlite3_jni.cc:232-239 | two strings with the same bytes are the same string |
| `ModifiedUtf8.NativeTextKeepsString` | sqlite4a/src/main/cpp/sqlite3_jni.cc:185-195 | the zero-terminated copy made by strlen or std::string is the whole encoding, holds no zero byte, and tells distinct strings apart |
| `ModifiedUtf8.StringRoundTrip` | sqlite4a/src/main/cpp/sqlite3_jni.cc:407-412 | what bindString stores, getColumnString reads back, for every Java string |
| `ModifiedUtf8.EncodeDecode` | sqlite4a/src/main/cpp/sqlite3_jni.cc:409-411 | a byte string is the encoding of some string exactly when each of its groups is the shortest for its unit |
| `StandardUtf8.EncodeIsUtf8` | sqlite4a/src/main/cpp/sqlite3_jni.cc:306-307 | the bytes bound as text are standard UTF-8 exactly when the string has no NUL and no surrogate |
| `StandardUtf8.DecodeOfUtf8` | sqlite4a/src/main/cpp/sqlite3_jni.cc:409-411 | zero-free standard UTF-8 is readable exactly when it has no four-byte sequence, and then encodes back to the same bytes |
| `StandardUtf8.ForeignTextReadsBack` | sqlite4a/src/main/cpp/sqlite3_jni.cc:407-412 | for any UTF-8 column text, when it can be read, how much of it is read, and when that is all of it |
| `StandardUtf8.BoundTextDenotes` | sqlite4a/src/main/cpp/sqlite3_jni.cc:303-312 | the code points of the bytes bound for a string, read from lead and payload bits alone, are the units of that string |
| `StandardUtf8.TextReadDenotes` | sqlite4a/src/main/cpp/sqlite3_jni.cc:407-412 | the string read from any text, whoever wrote it, is the code points before its first zero byte |
| `StandardUtf8.Utf8LengthMeans` | sqlite4a/src/main/cpp/sqlite3_jni.cc:306-307 | the byte ranges taken for well-formed are exactly the shortest forms of Unicode scalar values |
| `Collation.WrittenTextCompares` | sqlite4a/src/main/cpp/sqlite3_jni.cc:97-101 | on text written by this binding the cut at the first zero removes nothing and the comparator sees the original strings |
| `Collation.ContractGivesLaws` | sqlite4a/src/main/cpp/sqlite3.h:5021-5029 | a comparator that keeps Java's contract obeys the four collation laws on strings |
| `Collation.LawsPullBack` | sqlite4a/src/main/cpp/sqlite3_jni.cc:93-106 | the registered collation obeys the four laws on all readable text if and only if the comparator obeys them on all strings |
| `Collation.ComparatorIsCollation` | sqlite4a/src/main/cpp/sqlite3.h:5012-5033 | a lawful comparator is a lawful collation on all readable text, and texts equal up to their first zero byte compare equal |
| `DoubleTransport.NativeExecForDouble` | sqlite4a/src/main/cpp/sqlite3_jni.cc:213-230 | 0 without a row, an exception only for a failed prepare; for an INTEGER column a nearest double, the even one on a tie, whose long value is within 512, equal exactly for the integers that fit a double and the largest long; for any other column the library's double |
| `DoubleTransport.ToDoubleIsNearestEven` | sqlite4a/src/main/cpp/sqlite3_jni.cc:224-227 | the conversion gives a double; no double, with a fraction or without, is nearer; and on a tie its significand is even |
| `DoubleTransport.LongOf` | sqlite4a/src/main/java/sqlite4a/SQLiteDb.java:66-69 | longValue() of the Number returned drops the fraction towards zero and saturates at both ends |
| `DoubleTransport.NumberErrorBound` | sqlite4a/src/main/java/sqlite4a/SQLiteDb.java:66-69 | longValue() is exact up to 2^53 in magnitude and off by at most 512 for every other 64-bit integer |
| `DoubleTransport.FitsDoubleIsRepresentable` | sqlite4a/src/main/cpp/sqlite3_jni.cc:224-227 | an integer is a double exactly when the bits below the last of 53 are zero |
| `DoubleTransport.NumberExact` | sqlite4a/src/main/java/sqlite4a/SQLiteDb.java:66-69 | longValue() is the SQL integer if and only if the bits below the last of 53 are zero or it is Long.MAX_VALUE |
| `DoubleTransport.NumberOrderKept` | sqlite4a/src/main/java/sqlite4a/SQLiteDb.java:66-69 | the number path never reverses the order of two integers |
| `Marshalling.PointerRoundTrip` | sqlite4a/src/main/cpp/sqlite3_jni.cc:115-117 | a pointer survives the trip through jlong on 32-bit and 64-bit ABIs, only NULL becomes 0, and a 32-bit pointer becomes the signed or the unsigned number of its bits |
| `Marshalling.PointerToLongInjective` | sqlite4a/src/main/cpp/sqlite3_jni.cc:160-160 | different native objects get different Java handles |
| `Marshalling.JavaFunc` | sqlite4a/src/main/cpp/sqlite3_jni.cc:108-125 | the C loop delivers an array of the same length whose i-th long names the i-th argument, and a long that names the context |
| `Marshalling.Call` | sqlite4a/src/main/java/sqlite4a/JniFunc.java:27-33 | the Java loop delivers one new value object for each long, in order, and a new context object |
| `Marshalling.InvokeFunction` | sqlite4a/src/main/cpp/sqlite3_jni.cc:108-125 | through both loops the context object names the library's context and the i-th value the i-th SQL argument, for every argument count |
| `Cursors.NewIteratorForgets` | sqlite4a/src/main/java/sqlite4a/RowIterator.java:53-61 | a new iterator on a statement that is not on a row is, after any calls and failures, where one on a never-stepped statement would be |
| `Cursors.SelectForgets` | sqlite4a/src/main/java/sqlite4a/SQLiteStmt.java:86-92 | after select() every later answer is that of a never-stepped statement, whatever happened before |
| `Cursors.FailureRestarts` | sqlite4a/src/main/java/sqlite4a/RowIterator.java:53-61 | after a failed step the iterator behaves like a new one on a reset statement |
| `Cursors.ExhaustedStays` | sqlite4a/src/main/java/sqlite4a/RowIterator.java:53-61 | an exhausted iterator never steps again and answers false or NoSuchElement for ever |
| `Cursors.SessionFromCalls` | sqlite4a/src/main/java/sqlite4a/RowIterator.java:53-70 | flags and cursor after any error-free calls, from the number of hasNext calls and the last call |
| `Cursors.EveryAnswer` | sqlite4a/src/main/java/sqlite4a/RowIterator.java:53-70 | what each call of an arbitrary error-free sequence returns: the n-th hasNext is about row n, and next gives a row only right after a hasNext |
| `Cursors.RowsAccounted` | sqlite4a/src/main/java/sqlite4a/RowIterator.java:31-33 | rows stepped onto equal rows delivered plus rows overwritten unread plus at most one waiting, failures included |
| `Cursors.DeliveredInOrder` | sqlite4a/src/main/java/sqlite4a/RowIterator.java:53-70 | delivered row numbers strictly increase and stay inside the result |
| `Cursors.AlternationDelivers` | sqlite4a/src/main/java/sqlite4a/RowIterator.java:53-70 | strict alternation of hasNext and next delivers every row from the first on |
| `SharedCursors.NextGivesAnnouncedRow` | sqlite4a/src/main/java/sqlite4a/RowIterator.java:53-70 | for any interleaving of calls on other iterators, select() and clearBindings() between hasNext and next: next hands out a row, and it is the announced one if and only if none of them stepped or reset the statement |
| `SharedCursors.AloneIsSession` | sqlite4a/src/main/java/sqlite4a/SQLiteStmt.java:86-92 | while only one of the iterators is used it goes exactly through the states of `Cursors`, and the others keep their flags |
| `Statements.PreparedStmt.Step` | sqlite4a/src/main/cpp/sqlite3.h:4082-4119 | an execution yields the query's rows for the table and the parameters bound; automatic reset after anything but a row; the code of the new position; the program's effect on table, change count and row id exactly when it is done |
| `Statements.SQLiteStmt.BindString` | sqlite4a/src/main/java/sqlite4a/SQLiteStmt.java:66-70 | a null string binds nothing; any other is bound as text whose code points are its units, or throws without effect |
| `Statements.SQLiteStmt.ClearBindings` | sqlite4a/src/main/cpp/sqlite3_jni.cc:325-335 | always resets; clears only when the last step had not failed, and throws otherwise |
| `Statements.SQLiteStmt.Insert` | sqlite4a/src/main/cpp/sqlite3_jni.cc:337-348 | anything but done finalizes the statement and throws; done appends the bindings and returns the row id |
| `Statements.SQLiteStmt.Execute` | sqlite4a/src/main/cpp/sqlite3_jni.cc:350-361 | anything but done finalizes the statement, throws and changes nothing; done leaves the table and returns the count that the update makes of the old table and the parameters, one more row and 1 for an insert, the old table and count for a query |
| `Statements.SQLiteStmt.Select` | sqlite4a/src/main/java/sqlite4a/SQLiteStmt.java:86-92 | resets a statement on a row or after a failed step, leaves one run to completion as it is, and gives a new iterator on the same handle; throws exactly after a failed step; the step `SharedCursors` takes for it |
| `Statements.RowIterator.HasNext` | sqlite4a/src/main/java/sqlite4a/RowIterator.java:53-61 | steps the shared statement, with its parameters as bound, at every call until done, and sets both flags from the step |
| `Transfers.StoredRowsMean` | sqlite4a/src/main/java/sqlite4a/SQLiteStmt.java:54-76 | over cleared bindings each stored row means its own tuple: nulls are NULL, text denotes the string and reads back, nothing is carried over |
| `Transfers.BindTuple` | sqlite4a/src/main/java/sqlite4a/SQLiteStmt.java:54-76 | on a reset statement no bind call of a tuple is a misuse, and skipped nulls leave what was bound |
| `Transfers.InsertAll` | sqlite4a/src/androidTest/java/sqlite4a/SQLiteStmtTest.java:67-76 | the loop appends exactly the tuples up to the first failing step, in order; that failure finalizes the statement |
| `Transfers.Drain` | sqlite4a/src/androidTest/java/sqlite4a/SQLiteStmtTest.java:85-94 | select and loop, from any state, deliver the query's rows for table and parameters in order up to the first failing step; all of them if and only if no step onto a row fails; the loop terminates |
| `Transfers.DrainBound` | sqlite4a/src/main/java/sqlite4a/SQLiteStmt.java:54-92 | clearBindings, the bind calls of a tuple, select and loop deliver the rows of an arbitrary query run with parameters that mean the tuple |
| `Transfers.UpdateThenRead` | sqlite4a/src/androidTest/java/sqlite4a/SQLiteStmtTest.java:97-109 | after binding a tuple and execute() of an arbitrary update, the count returned and the table read back are what the update makes of the old table with parameters that mean the tuple |
| `Transfers.WriteThenRead` | sqlite4a/src/androidTest/java/sqlite4a/SQLiteStmtTest.java:53-94 | what is read after the insert loop is the old table and then rows that mean the tuples |
| `Transfers.StoreAndFetchString` | sqlite4a/src/main/java/sqlite4a/RowIterator.java:99-101 | bindString for each parameter, insert, select, hasNext and next up to the new row, getColumnString of any column give back the very string bound there, and null for null, whatever the table held |
| `Ownership.EventKeepsInvariant` | sqlite4a/src/main/cpp/sqlite3_jni.cc:139-274 | whatever the library answers, one call keeps handles, registrations and references consistent |
| `OwnershipRuns.RunKeepsInvariant` | sqlite4a/src/main/cpp/sqlite3_jni.cc:139-380 | the invariant holds after every legal run |
| `OwnershipRuns.EventStray` | sqlite4a/src/main/cpp/sqlite3_jni.cc:246-274 | one call leaves a reference nobody will delete exactly when it is a failed createCollation |
| `OwnershipRuns.ReferenceConservation` | sqlite4a/src/main/cpp/sqlite3_jni.cc:197-274 | live references equal open wrappers with a trace plus installed functions and collations plus failed createCollations |
| `OwnershipRuns.DeadStaysDead` | sqlite4a/src/main/cpp/sqlite3_jni.cc:127-132 | a deleted reference never becomes live again, so with the live-only precondition of each deletion none is deleted twice |
| `OwnershipRuns.ConnectionConservation` | sqlite4a/src/main/cpp/sqlite3_jni.cc:139-171 | connections not deallocated equal open wrappers plus zombies held by a statement plus failed opens that returned a handle |
| `OwnershipRuns.StatementConservation` | sqlite4a/src/main/cpp/sqlite3_jni.cc:232-244 | outstanding statements equal non-empty prepares minus finalizing events |
| `OwnershipRuns.CallbacksHoldLiveReferences` | sqlite4a/src/main/cpp/sqlite3_jni.cc:93-125 | in every reachable state each installed function and collation, on zombies too, holds a live reference |
| `Registrations.FoldedMeans` | sqlite4a/src/main/cpp/sqlite3.h:4983-4984 | two names are one to the library if and only if they have the same length and differ in nothing but the case of ASCII letters |
| `Registrations.SecondRegistration` | sqlite4a/src/main/cpp/sqlite3_jni.cc:246-274 | of two successful registrations the first keeps its place and its live reference if and only if the SQLiteDb, the kind (function with its argument count, or collation) or the name differs; otherwise its reference is dead and one registration is left |
| `Registrations.LatestIsFound` | sqlite4a/src/main/cpp/sqlite3_jni.cc:246-274 | in every reachable state, what is found under a name on an open SQLiteDb is exactly the object of the last successful registration of that kind and name, and it is live |
| `TraceCallbacks.OwnStmtsAreOutstanding` | sqlite4a/src/main/cpp/sqlite3_jni.cc:232-244 | the outstanding statements of an open connection are those the calls name |
| `TraceCallbacks.TraceWhileOpen` | sqlite4a/src/main/cpp/sqlite3_jni.cc:197-211 | while a SQLiteDb is open, its trace callback holds a live reference exactly when its last trace() succeeded, and a deleted one exactly when a later trace() failed and the library kept the old registration |
| `TraceCallbacks.TraceOnZombie` | sqlite4a/src/main/cpp/sqlite3_jni.cc:163-171 | a trace callback on a zombie always holds a deleted reference |
| `TraceCallbacks.TraceSafety` | sqlite4a/src/main/cpp/sqlite3_jni.cc:74-91 | after any run all trace callbacks hold live references if and only if every statement whose SQLiteDb was closed while traced is finalized and no open SQLiteDb had trace() fail with the old registration kept |
| `TraceCallbacks.TraceGuard` | sqlite4a/src/main/cpp/sqlite3_jni.cc:163-211 | from a safe state one call keeps all trace callbacks live if and only if it is no close of a traced SQLiteDb with statements out and no trace() of a traced one that fails with the old registration kept |
| `TraceCallbacks.TraceAtTheLibrarysMercy` | sqlite4a/src/main/cpp/sqlite3_jni.cc:197-211 | trace() is safe whatever the library answers if and only if the SQLiteDb is not traced already |
| `TraceCallbacks.TraceSafetyAlways` | sqlite4a/src/main/cpp/sqlite3_jni.cc:74-91 | every trace callback is live at every time of a run if and only if each call passes the guard |
| `TraceCallbacks.OrderlyRunsAreTraceSafe` | sqlite4a/src/main/cpp/sqlite3.h:306-309 | when statements are finalized before close and trace() succeeds, there is no zombie and every trace callback is live at every time |
| `ErrorTexts.ErrorTextConnection` | sqlite4a/src/main/cpp/sqlite3_jni.cc:337-361 | a failed insert or execute asks a deallocated connection exactly when the connection is a zombie and this is its last statement |
| `ErrorTexts.ErrorTextFromCalls` | sqlite4a/src/main/cpp/sqlite3_jni.cc:337-361 | the same from the calls alone: exactly when its SQLiteDb was closed with this statement out and all others of that SQLiteDb are finalized since |
| `ErrorTexts.OrderlyRunsAskLiveConnections` | sqlite4a/src/main/cpp/sqlite3_jni.cc:337-361 | that never happens when statements are finalized before close |
| `Discipline.AliveIsOutstanding` | sqlite4a/src/main/java/sqlite4a/RowIterator.java:77-80 | a pointer is usable exactly between its issue and its own finalizing event, closing the SQLiteDb in between or not |
| `Discipline.LegalIsDisciplined` | sqlite4a/src/main/java/sqlite4a/SQLiteStmt.java:98-101 | no call goes through a released pointer if and only if each pointer is used only after its issue and before the one event that releases it |
| `Teardown.TeardownResult` | sqlite4a/src/main/cpp/sqlite3.h:295-314 | any teardown sequence ends in the world computed from the sets of what was closed and finalized |
| `Teardown.AnyOrderIsLegal` | sqlite4a/src/main/cpp/sqlite3_jni.cc:163-171 | in whatever order, closes and finalizations of different live objects meet no dead pointer |
| `Teardown.TeardownConfluent` | sqlite4a/src/main/cpp/sqlite3_jni.cc:377-380 | two interleavings of the same closes and finalizations end in the same world |
| `Teardown.FullTeardown` | sqlite4a/src/main/cpp/sqlite3_jni.cc:163-171 | after any run, closing and finalizing everything leaves only one connection per failed open and one reference per failed createCollation |
| `Natives.Process.Destroy` | sqlite4a/src/main/cpp/sqlite3.h:4478-4481 | deallocation runs the destructor of each registration of the connection once and of no other |
| `Natives.Process.NativeOpen` | sqlite4a/src/main/cpp/sqlite3_jni.cc:139-161 | a SQLiteDb exactly when open and busy timeout succeed and not both the read-write flag is set and the file is read-only; otherwise 0 and the old world, but for the connection a failed open leaves |
| `Natives.Process.NativeClose` | sqlite4a/src/main/cpp/sqlite3_jni.cc:163-171 | deletes the trace reference, closes or makes a zombie, frees the wrapper |
| `Natives.Process.NativeTrace` | sqlite4a/src/main/cpp/sqlite3_jni.cc:197-211 | replaces the trace reference, and the registration if the library accepts it; a refusal leaves or cancels the old registration, as the library decides |
| `Natives.Process.NativeExecForDouble` | sqlite4a/src/main/cpp/sqlite3_jni.cc:213-230 | owns nothing afterwards, whether prepare failed or not |
| `Natives.Process.NativePrepare` | sqlite4a/src/main/cpp/sqlite3_jni.cc:232-244 | a new statement of the connection, or NULL for an error or for text without SQL |
| `Natives.Process.NativeCreateCollation` | sqlite4a/src/main/cpp/sqlite3_jni.cc:246-259 | installs the reference under the name and destroys the one it replaces (which one: `Registrations.SecondRegistration`); on failure the new reference stays live |
| `Natives.Process.NativeCreateFunction` | sqlite4a/src/main/cpp/sqlite3_jni.cc:261-274 | installs the reference under the name and argument count and destroys the one it replaces (which one: `Registrations.SecondRegistration`); on failure the new reference is destroyed |
| `Natives.Process.NativeRun` | sqlite4a/src/main/cpp/sqlite3_jni.cc:337-361 | a step that is not done finalizes the statement, with its zombie if it was the last, and whether the connection then asked is live |
| `Natives.Process.NativeFinalize` | sqlite4a/src/main/cpp/sqlite3_jni.cc:377-380 | nothing for NULL; otherwise one statement less, and its zombie if it was the last |
| `KnownFaults.ZombieTracesWithDeletedReference` | sqlite4a/src/main/cpp/sqlite3_jni.cc:163-171 | open, trace, prepare, close ends with a callback on a deleted reference |
| `KnownFaults.FailedTraceLeavesDeletedReference` | sqlite4a/src/main/cpp/sqlite3_jni.cc:197-211 | open, trace, failed trace ends with a callback on a deleted reference if the library keeps the old registration |
| `KnownFaults.FailedCollationLeaksReference` | sqlite4a/src/main/cpp/sqlite3_jni.cc:246-259 | open, failed createCollation, close leaves exactly the comparator's reference |
| `KnownFaults.LateExecuteAsksDeadConnection` | sqlite4a/src/main/cpp/sqlite3_jni.cc:350-361 | open, prepare, close, failed execute asks a deallocated connection |
| `KnownFaults.FailedOpenLeaksConnection` | sqlite4a/src/main/cpp/sqlite3_jni.cc:139-147 | a failed open with a handle leaves that connection |
| `KnownFaults.BoundTextIsNotUtf8` | sqlite4a/src/main/cpp/sqlite3_jni.cc:303-312 | a string with U+0000 or with surrogates is bound as bytes that are not UTF-8 |
| `KnownFaults.FourByteTextIsUnreadable` | sqlite4a/src/main/cpp/sqlite3_jni.cc:407-412 | one four-byte UTF-8 character stored by another program cannot be read |
| `KnownFaults.LargeIntegerChanges` | sqlite4a/src/main/cpp/sqlite3_jni.cc:213-230 | 2^53 + 1 comes back as 2^53 |
| `KnownFaults.FailedStepEndsSelect` | sqlite4a/src/main/java/sqlite4a/RowIterator.java:53-61 | two rows, the second step fails: hasNext says false after row 0, and asked again it is back at row 0 |
| `KnownFaults.SharedIteratorsTakeTheSameRow` | sqlite4a/src/main/java/sqlite4a/RowIterator.java:53-70 | two iterators that both ask before they take stand on row 1, and row 0 is lost |
| `KnownFaults.SelectTakesTheRowAway` | sqlite4a/src/main/java/sqlite4a/SQLiteStmt.java:86-92 | select() between hasNext and next leaves the old iterator with a row on a reset statement |

## Left out

- SQL itself: parsing, planning, storage, locking and transactions. A statement appends its bindings as a row, changes the table by some function of table and bindings, or yields rows computed from both when its execution starts.
- A table that changes while a select is being drained: one execution sees the rows of its start.
- Threads, the JVM's attachment of threads, exceptions thrown by user callbacks, and allocation failures other than an open without a handle.
- `Statements.PreparedStmt.Bind`: does not model SQLITE_TOOBIG and SQLITE_NOMEM, which depend on limits and memory.
- `Statements.PreparedStmt.Step`: one error code stands for all of them, since the binding only tells ROW, DONE and the rest apart.
- `Statements.SQLiteStmt.Select`: takes a failed statement as busy, as the documentation of sqlite3_stmt_busy words it.
- `Natives.Process.NativeTrace`: trace(null) is excluded by @NonNull.
- `Natives.Process.NativeFinalize`: addresses of connections, statements and wrappers may be reused, but global references are numbered once and never reissued.
- The natives state their whole effect; that this effect keeps the invariant is EventKeepsInvariant, not repeated in each of them.
- `Discipline.LegalIsDisciplined`: counts the pointers that Java objects hold; the connection pointer inside a failed insert or execute is the subject of ErrorTextConnection.
- Binding through the NULL statement of empty SQL: the ownership part treats NULL as never dead, the statement part starts from a real statement.
- `Transfers.StoredRowsMean`: doubles are real numbers, so NaN (stored as NULL by the library) is not among them.
- `DoubleTransport.NativeExecForDouble`: how the library makes a double of a TEXT, BLOB or NULL column is its own; infinities and NaN are not real numbers.
- `SharedCursors.NextGivesAnnouncedRow`: insert() and execute() between the two calls are not among the interleaved ones; unless they run to completion they finalize the statement.
- Automatic row ids and the affinity conversions of columns: rows are stored as bound.
- Text of a UTF-16 database, and what NewStringUTF does with bytes that are not modified UTF-8.
- Column values other than text and whole rows, SQLiteValue and SQLiteContext accessors, the text passed to a trace callback, exception messages and logging: one-line delegations.
- `Marshalling.InvokeFunction`: the user's function is not called; the context and the array it would get are returned.

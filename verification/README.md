# A verified model of the provider's algorithms

This project models the parts of the provider whose correctness is an argument rather
than a check, and proves them in Dafny:

- **the persistent evaluator** of `cbr-memory`: a store of inputs and memos that answers
  from what it remembers, and must answer as if it remembered nothing;
- **the encoding crate**: a strict JSON reader, a canonical printer, the intent of a
  command, and strict base64;
- **the budget ledger**: admissions, settlements, transactions the store refuses, and the
  stops that outlive them;
- **the calendar and the clock**: closed forms against the calendar counted a day at a
  time, and texts whose order is the order of time;
- **retrieval**: searching a view page by page, and the chunks and neighbours it rests on;
- **the smaller rules**: the frame reader, range reassembly, grant delegation, packet ids.

`dafny verify dfyconfig.toml` checks all of it.

## How it is laid out

| files | what is in them |
|---|---|
| `Scratch`, `MemoGraph`, `Quiet`, `Evaluator`, `Histories`, `Boundaries` | from-scratch evaluation; the memo graph and its invariant; what a query leaves alone; the store and session that write it; whole histories; where the promise ends |
| `Economy`, `Cutoff` | which functions are called, and why; a store in which dependents are not |
| `Values`, `Grammar`, `Reader`, `ReaderTheorems`, `Parsing` | the value domain; the JSON grammar as syntax trees; reading as functions, proved to be the grammar; the parser that advances a position, proved to be those functions |
| `Escapes`, `Refusals` | characters, words and white space by tables and arithmetic; every text that is refused, and as what |
| `Canonical`, `CanonicalTheorems`, `MemberOrder`, `Shortest`, `Intent`, `Asked`, `Base64` | the printer; reading undoes it; it forgets member order and nothing else; the order and length of what it prints; the intent of a command; what an intent is made of; base64 |
| `Budget`, `BudgetRuns`, `BudgetStops`, `BudgetWindow`, `BudgetMonth`, `BudgetAccounts`, `Ledger` | rows and steps; bounds over runs; stops over runs; the rolling window; where the month's bound ends; each step by what it writes, and spend as the sum of it; the ledger whose methods are runs of those steps |
| `Order`, `Decimals`, `Calendar`, `Instants`, `Clock` | dictionary order; decimal numerals; the Gregorian calendar; instants as text; the clock |
| `Rows`, `Retrieval`, `Paging`, `Walking`, `Losing`, `Answers`, `Shown`, `Chunks`, `Pieces` | rows in order; a search; everything a view holds; the walk; what a walk loses; caps and gaps; what an answer shows of its rows; chunks and neighbours; a cut by the places of line feeds |
| `Frames`, `Assembly`, `Calls`, `Grants`, `Ids` | one file a rule; reassembly by its calls in `Calls` |
| `Options`, `Bytes` | shared types |

**Tables are maps and sequences.** A transaction commits whole or is refused, and which of
the two is a parameter (`taken`, `fates`), so a theorem about every run covers every
refusal. A registered function of the evaluator is a deterministic reader: told what it
has read so far, it asks for a key, declares an untracked read, or ends.

**Object and specification.** What the source updates in place is a class (`Store`,
`Session`, `Parser`, `Printer`, `Ledger`, `Process`, `Clock`, `FrameReader`) whose methods
equal, or are runs of, pure functions; the properties are lemmas about those.

## What turned out false, and what is true instead

- Setting as an input a key the evaluator has derived can leave a memo that shallow
  verification accepts although its computation would now be told something else; the next
  answer can then be wrong (`SettingADerivedKeyGoesStale`, from an empty store), or right
  after all if the computation makes nothing of what it read. It leaves one exactly when a
  memo more durable than the new input has read the key, and the key was worth something
  else (`SetInputIsSafeExactly`, `SetInputKeepsExactly`). A caller is safe who sets keys that
  name no function, keys without a memo, or no less durably than the memo (`MaySetUnread`).
- A memo that read something untracked is not always executed again before it is reused: it
  is exactly when it was not verified in this revision (`Session.Fetch`). Within the
  revision it is what it would be now exactly as long as what it looked at has not moved
  (`OutsideSeenExactly`, `OutsideMovingWithinARevisionGoesStale`).
- A settlement that comes after its reservation has left the five-hour window counts in it
  again, and the window's limit can be passed with no overrun
  (`LateSettlementPassesTheWindow`). The limit holds when each settlement's reservation is
  inside the window of the last grant; and when a settlement raises the window is exact
  (`SettlementRaisesExactly`).
- Likewise a month: a reservation of the month before, settled in it, is counted in it, and
  its limit can be passed with no overrun (`SettlementCarriedPassesTheMonth`). When a
  settlement raises a month is exact (`SettlementRaisesMonthExactly`).
- A tree is walked breadth first, not in path order, and stops after one row more than a
  page: a walk over a source that answers from its tree can lose rows
  (`FolderLastLosesARow`). At every size of page a walk yields every row, once and in order,
  exactly when no row of a tree comes after two greater ones (`WalkExactly`).
- A page that is not the last, or a page of no rows, can hide a gap
  (`TruncatedPageHidesAGap`). An answer declares its gaps exactly when every source that is
  silent about one has a row among the candidates that fit on the page (`DeclaresExactly`).
- The reader of instants takes 31 February and other days past the end of a month
  (`DaysSpillOver`), so only one of the two round trips holds for all texts; which texts
  the other holds for is exact (`OnlyRealDaysComeBack`).
- Texts are in the order of time exactly before the year 10000 (`OrderIsTimeExactlyBelow`).
- A resource narrowed by an empty prefix covers everything and is not held wide enough for
  an unnarrowed one; that is the only subject test and width test disagree about
  (`CoversResourceIsWider`).
- A span id would be ambiguous for negative byte offsets (`NegativeStartsCollide`).
- The comment on `ids.rs` `decode` says it refuses text `encode` could not have produced; it
  also reads `~41` (`NeedlessEscapeIsRead`). What `encode` produces is exactly what `decode`
  reads with no escape of a character that needs none (`SpelledExactly`).
- `frames.rs` says a receiver holds at most limit + 1 bytes of an unfinished frame; it can
  hold up to the limit and one read (`HeldPastTheLimit`), and holds more than limit + 1
  exactly when one read takes the frame from the limit or less to more than that
  (`HeldExactly`).

## Model

| member | source | states |
|---|---|---|
| Scratch.SplitUndoesMakeKey | crates/cbr-memory/src/evaluator.rs:99-111 | a key splits back into the name and argument it was made of, whatever the argument holds |
| Scratch.OneOutcome | crates/cbr-memory/src/evaluator.rs:237-256 | computed from scratch, a key has one outcome, however much work it is allowed |
| Scratch.SelfNeedDiverges | crates/cbr-memory/src/evaluator.rs:184-188 | a key whose computation needs itself never ends: what a cycle error may be reported for |
| Scratch.RankedEnds | crates/cbr-memory/src/evaluator.rs:237-256 | functions whose reads respect a rank always end, within a stated amount of work |
| MemoGraph.ShallowIsCurrent | crates/cbr-memory/src/evaluator.rs:207-213 | in every store that keeps the invariant, a memo shallow verification accepts holds its key's from-scratch value now |
| MemoGraph.CurrentSoFar | crates/cbr-memory/src/evaluator.rs:214-219 | while the edges walked so far are unchanged, the computation now is told exactly what it was told when the memo was verified |
| MemoGraph.MarkVerifiedKeeps | crates/cbr-memory/src/evaluator.rs:207-223 | re-stamping a memo whose dependencies are unchanged and current keeps every memo's and every edge's promise |
| MemoGraph.WriteMemoKeeps | crates/cbr-memory/src/evaluator.rs:249-285 | writing a recomputed memo keeps the invariant, backdating and the durability guard included |
| MemoGraph.SetInputKeeps | crates/cbr-memory/src/evaluator.rs:463-501 | setting an input keeps the invariant because the larger of the old and new durability is announced |
| MemoGraph.StampIsTheLastMove | crates/cbr-memory/src/evaluator.rs:227-285 | in every store that keeps the invariant, the stamp of what a memo read is later than its verification exactly when, in a later revision, an input was set to something new or a function came to another value or to one less durable |
| MemoGraph.DependenciesExactly | crates/cbr-memory/src/evaluator.rs:162-169 | what a computation has recorded is every key it has read and no other, each once |
| Scratch.UnmovedEval | crates/cbr-memory/src/evaluator.rs:12-21 | a computation that reads only what another world leaves as it was comes to the same in it |
| MemoGraph.SetInputUnmoved | crates/cbr-memory/src/evaluator.rs:482-499 | what a memo above the announced level has read, through anything it read, is the same in the new revision |
| MemoGraph.MaySetUnread | crates/cbr-memory/src/evaluator.rs:463-501 | what a caller can see to before setting a key: it names no function, it has no memo, or it is set no less durably than its memo |
| Evaluator.Store.SetInput | crates/cbr-memory/src/evaluator.rs:463-501 | the value and durability an input already has change nothing at all; anything else starts a revision, announced to every level up to the larger of the old and new durability and to no other |
| Evaluator.Store.Evaluate | crates/cbr-memory/src/evaluator.rs:513-528 | the reply is the from-scratch outcome on the current inputs; a key's function is called exactly when it has no memo, or its memo is of an earlier revision, is not accepted by shallow verification, and looked at something untracked or read something that really moved since; a second call in the revision changes nothing; even in a store whose promise is void, a memo at hand is answered with nothing called |
| Evaluator.Session.Read | crates/cbr-memory/src/evaluator.rs:162-169 | a read records its edge, after those before it, and gives the from-scratch outcome |
| Evaluator.Session.Fetch | crates/cbr-memory/src/evaluator.rs:180-196 | inputs shadow memos; a reply is the from-scratch outcome, a cycle only where there is none, and what is open already is one; a live memo answered with a value has its function called exactly when that is due |
| Evaluator.Session.Validate | crates/cbr-memory/src/evaluator.rs:198-223 | true only for a memo settled at its from-scratch value, whose function was not called on the way; and it is true exactly when calling the function is not due, that is, unless the memo is of an earlier revision, is not accepted as it stands, and looked at something untracked or read something that really moved |
| Evaluator.Session.WalkEdges | crates/cbr-memory/src/evaluator.rs:214-219 | the edges are walked in the order read, each one a dependency the current computation reads too; it stops at the first whose stamp is later than the memo's verification |
| Evaluator.Session.ChangedAfter | crates/cbr-memory/src/evaluator.rs:227-235 | brings a derived dependency up to date, then compares its stamp, which is later exactly when the dependency really moved (`StampIsTheLastMove`) |
| Evaluator.Session.Execute | crates/cbr-memory/src/evaluator.rs:237-285 | called only when due, it calls the function, runs it to its from-scratch outcome and settles the key |
| Evaluator.Session.Record | crates/cbr-memory/src/evaluator.rs:249-283 | the memo is as durable as its least durable dependency, not durable if untracked, and backdated only with the same value at no less durability |
| Evaluator.Session.LeastDurable | crates/cbr-memory/src/evaluator.rs:251-256 | the durability of a memo is the least of its dependencies' |
| Evaluator.Session.Tell | crates/cbr-memory/src/evaluator.rs:162-177 | a running function is answered what it would be from scratch, and its frame records what it asked |
| Evaluator.Session.Compute | crates/cbr-memory/src/evaluator.rs:245-249 | what a running function is told and the frame it leaves are those of the from-scratch computation |
| Evaluator.AboutToRead | crates/cbr-memory/src/evaluator.rs:214-219 | with the edges before it unchanged, the next recorded dependency is one the current computation reads |
| Histories.Replay | crates/cbr-memory/src/evaluator.rs:463-528 | over any history of inputs set and keys asked, from an empty store, every reply is the from-scratch outcome in the inputs of that moment, up to the first input, if any, that a caller may not set; with every input under a name of its own, or as durable as can be, there is none |
| Histories.AnswersWhereDefined | crates/cbr-memory/src/evaluator.rs:513-528 | where the from-scratch computation ends, the reply is its value or its error and nothing else |
| Histories.RankedNeverCycles | crates/cbr-memory/src/evaluator.rs:184-188 | functions whose reads respect a rank never see a cycle reported, and are always answered |
| Economy.CalledForAReason | crates/cbr-memory/src/evaluator.rs:198-235 | whenever a query calls the function of a key that has a memo, the memo is of an earlier revision, and something it read, in a revision after, was set to another value or durability than it had, or came to another value or to one less durable than before: values and durabilities it was worth in those revisions; or it looked at something untracked |
| Economy.CutOff | crates/cbr-memory/src/evaluator.rs:262-270 | however often what a memo read was recomputed, as long as it came to the same value at no less durability each time, the memo's function is not called |
| Economy.AskedAgainNothingIsCalled | crates/cbr-memory/src/evaluator.rs:513-528 | over any history: a key asked for, answered, and asked for again, with nothing set between that it rests on, has not one function called, whatever else was set and asked |
| Economy.MoreDurableIsLeftAlone | crates/cbr-memory/src/evaluator.rs:207-213 | setting an input, less durable before and after than a memo, leaves that memo to shallow verification, by which nothing is called |
| Cutoff.ConstantCutsOff | crates/cbr-memory/tests/evaluator_properties.rs:401-440 | from an empty store, for any two values: an input is set, a function above a constant one asked for, the input set anew and the function asked for again; then the constant one is called and the one above it is not |
| Boundaries.SetInputIsSafeExactly | crates/cbr-memory/src/evaluator.rs:463-501 | after an input is set, what shallow verification accepts was told what it would be told now, exactly when no memo above the announced level had read the key as a derived one, or the key was worth that already |
| Boundaries.SetInputKeepsExactly | crates/cbr-memory/src/evaluator.rs:463-501 | whatever the value, exactly when no such memo had; and exactly then, for anything that is news, the invariant of the store is kept |
| Boundaries.SettingADerivedKeyGoesStale | crates/cbr-memory/src/evaluator.rs:180-183 | a store, made by asking and setting, whose next answer is not what its key is worth |
| Boundaries.OutsideSeenExactly | crates/cbr-memory/src/evaluator.rs:198-206 | a memo with an untracked read, verified in this revision, was told what it would be told now exactly as long as the unrecorded state has not moved |
| Boundaries.OutsideUnseen | crates/cbr-memory/src/evaluator.rs:251-260 | a memo more durable than the least holds its key's value wherever the unrecorded state moves |
| Boundaries.OutsideMovingWithinARevisionGoesStale | crates/cbr-memory/src/evaluator.rs:198-206 | a store in which a second question in the revision is answered with what is not so any more |
| ReaderTheorems.ReaderIsTheGrammar | crates/cbr-encoding/src/parse.rs:24-51 | a text reads as a value exactly when the JSON grammar, narrowed to the domain and the depth, gives it that value: the whole text, unique names at every level, safe integers, no noncharacters |
| Refusals.RefusedExactly | crates/cbr-encoding/src/parse.rs:24-362 | a text is refused as an error of a kind exactly when it starts with a byte order mark; or, after items, members and white space of the grammar, has at that place the fault of that kind: too deep, ended, no value, no character of a string, no integer of the domain, no quote, colon or separator, or a name again; or goes on after a value |
| Escapes.StringReadsExactly | crates/cbr-encoding/src/parse.rs:237-337 | what stands between two quotes reads as a text exactly when it is its characters, each as itself, by its two-character escape, by the digits of its code unit in either case, or by those of its two surrogates, and none of them a noncharacter |
| Escapes.SpelledExactly | crates/cbr-encoding/src/parse.rs:274-337 | these are all the grammar's ways of spelling a character |
| Escapes.JoinUndoesUnits | crates/cbr-encoding/src/parse.rs:296-337 | for every high and low surrogate the character they are joined to is the one whose UTF-16 code units they are |
| Escapes.HexExactly | crates/cbr-encoding/src/parse.rs:339-362 | four digits of either case stand for the code unit of which they are the digits, most significant first |
| Escapes.ShortExactly | crates/cbr-encoding/src/parse.rs:270-294 | a two-character escape stands for the character the table of section 7 of RFC 8259 gives it, and no other letter is one |
| Escapes.NoncharactersExactly | crates/cbr-encoding/src/value.rs:69-71 | the noncharacters are a block of 32 and the last two code points of each of 17 planes |
| Escapes.WordsExactly | crates/cbr-encoding/src/parse.rs:68-97 | `null`, `true` and `false`, alone but for spaces, tabs, line feeds and carriage returns, are read as their values, and nothing else is |
| Parsing.Parse | crates/cbr-encoding/src/parse.rs:24-51 | the parser that advances a position gives exactly what the reading functions give, errors included |
| Parsing.Parser.Value | crates/cbr-encoding/src/parse.rs:99-115 | a value at a depth is read as its function reads it, the depth refused first |
| Parsing.Parser.ReadObject | crates/cbr-encoding/src/parse.rs:117-155 | members are read in order, a repeated name refused where it stands |
| Parsing.Parser.ReadArray | crates/cbr-encoding/src/parse.rs:157-179 | items are read in order |
| Parsing.Parser.ReadNumber | crates/cbr-encoding/src/parse.rs:181-235 | integers only, no leading zero, no minus zero, within the safe range |
| Parsing.Parser.QuotedString | crates/cbr-encoding/src/parse.rs:237-268 | characters and escapes to the closing quote, controls and noncharacters refused |
| Parsing.Parser.UnicodeEscape | crates/cbr-encoding/src/parse.rs:296-337 | surrogates only in pairs |
| CanonicalTheorems.ReadUndoesText | crates/cbr-encoding/src/canonical.rs:12-86 | for every value of the domain within a depth, reading its printed text gives the value back |
| CanonicalTheorems.ReadIsInDomain | crates/cbr-encoding/src/parse.rs:24-51 | whatever is read is inside the domain and no deeper than allowed |
| MemberOrder.ReadUndoesCanonical | crates/cbr-encoding/src/canonical.rs:12-59 | reading canonical text gives the value with its members in UTF-16 order at every level |
| MemberOrder.CanonicalTellsApart | crates/cbr-encoding/src/canonical.rs:12-59 | two values have the same canonical text exactly when they are equal up to member order at every level |
| MemberOrder.SortInOrder | crates/cbr-encoding/src/canonical.rs:34-59 | members of distinct names are sorted into one order, which `CanonicalAscends` says by code units |
| Shortest.CanonicalAscends | crates/cbr-encoding/src/canonical.rs:34-59 | of any two members of what canonical text reads as, at every level, the first has the smaller code unit at the first place their UTF-16 units differ, or ends there |
| Shortest.CharacterIsSpelled | crates/cbr-encoding/src/canonical.rs:61-86 | a character is printed as itself unless a quote, a backslash or below U+0020, and then by its letter if it has one and by lower-case digits if not |
| Shortest.CanonicalIsShortest | crates/cbr-encoding/src/canonical.rs:12-86 | whatever reads as a value is at least as long as its canonical text |
| Shortest.IntegersExactly | crates/cbr-encoding/src/parse.rs:212-235 | an integer's text is read as it exactly when it is inside 53 bits and a sign |
| MemberOrder.Utf16IsInjective | crates/cbr-encoding/src/canonical.rs:57-59 | the code units the sort compares tell every two names apart |
| Canonical.Printer.Write | crates/cbr-encoding/src/canonical.rs:18-55 | the printer appends exactly the canonical text |
| Canonical.Printer.WriteString | crates/cbr-encoding/src/canonical.rs:61-86 | strings are written character by character with the shortest escapes |
| Canonical.SortKeepsEntries | crates/cbr-encoding/src/canonical.rs:34-37 | sorting loses and repeats nothing |
| Intent.CommandIntent | crates/cbr-encoding/src/intent.rs:59-112 | the loops over members, requirements and extensions give the intent function's value or its error |
| Intent.IntentInDomain | crates/cbr-encoding/src/intent.rs:59-112 | the intent of an envelope in the domain is in the domain, so its canonical bytes read back |
| Intent.IntentIsTheRequest | crates/cbr-encoding/src/intent.rs:59-117 | two envelopes have the same intent bytes exactly when they ask the same: five members, and the extensions they require |
| Asked.IntentExactly | crates/cbr-encoding/src/intent.rs:59-109 | a value is an envelope's intent exactly when it is made of its five members, each the first of its name, and of the declared extensions that its required keys with a slash name, in their order, no key required twice |
| Asked.RefusedInOrder | crates/cbr-encoding/src/intent.rs:59-109 | an envelope without an intent is no object, or lacks the first of the five members it lacks, or has malformed requirements, or malformed extensions, or a first key that repeats or is not declared, in that order |
| Intent.WireOrderIsIgnored | crates/cbr-encoding/src/intent.rs:59-117 | the order members arrive in does not change the intent's bytes |
| Base64.DecodesExactlyWhatEncodes | crates/cbr-encoding/src/base64.rs:10-71 | a text decodes to some bytes exactly when it is their encoding |
| Base64.EncodedExactly | crates/cbr-encoding/src/base64.rs:10-31 | each character of an encoding is the letter of its six bits of the bytes as long as one of them is there, and padding after that to a multiple of four |
| Base64.AlphabetExactly | crates/cbr-encoding/src/base64.rs:1-9 | A to Z, a to z, 0 to 9, plus and slash, in that order |
| Base64.EncodeBase64 | crates/cbr-encoding/src/base64.rs:10-31 | the loop over groups of three gives the encoding |
| Base64.DecodeBase64 | crates/cbr-encoding/src/base64.rs:38-71 | the loop over groups of four gives the decoding, or nothing |
| BudgetRuns.SpendIsBounded | crates/cbr-provider/src/budget.rs:568-621 | over every run, a job's, a run's and (settled in its month) a month's spend is at most its limit and what its bills came to above their reservations |
| BudgetRuns.LimitsHoldOutright | crates/cbr-provider/src/budget.rs:568-621 | while no bill has been above its reservation the limits hold outright |
| BudgetRuns.OverrunsAreNamedOnce | crates/cbr-provider/src/budget.rs:786-812 | in every reachable store overrun rows and bills above their estimates correspond one to one |
| BudgetRuns.AdmissionUnderLimit | crates/cbr-provider/src/budget.rs:594-620 | what an admission reserves fits under every limit with what is already spent |
| BudgetRuns.SettlementCounted | crates/cbr-provider/src/budget.rs:768-812 | a settlement moves exactly its row's part of every counter, and its overrun row is never spend |
| BudgetAccounts.SettlementWrites | crates/cbr-provider/src/budget.rs:751-812 | a settled reservation becomes a usage of its bill, whatever it is; an unknown usage of what was reserved; or a row of nothing, spent or exhausted; a bill above the reservation writes one overrun row, and nothing else changes |
| BudgetAccounts.SpendIsTheBooks | crates/cbr-provider/src/budget.rs:817-856 | over every run what any counter counts is the sum of what the run put down: standing reservations at their estimates, bills whole, unknown usage at what was reserved |
| BudgetAccounts.ExcessIsNamed | crates/cbr-provider/src/budget.rs:786-812 | the excess in the bounds is what the overrun rows say was billed above what was reserved |
| BudgetAccounts.GrantedExactly | crates/cbr-provider/src/budget.rs:543-622 | an admission is granted exactly when the store takes it, nothing has stopped the store or the process, and its estimate fits a request, its job, the five hours, the month and the run |
| BudgetAccounts.DeniedInOrder | crates/cbr-provider/src/budget.rs:568-620 | one that is not is named for the first in its way of an unsound bound, an overrun, a request, a job, the five hours, the month and the run, and writes one row that is no spend |
| BudgetAccounts.KeptExactly | crates/cbr-provider/src/budget.rs:684-749 | a settlement the store does not take is kept exactly when it is a bill above its reservation, the store has a file and none is kept for it yet; as it was, with its own instant, last |
| BudgetStops.RowsSettleOnce | crates/cbr-provider/src/budget.rs:768-791 | no row is lost, and a row changes at most once, from a reservation to its settlement |
| BudgetStops.OverrunStopsTheStore | crates/cbr-provider/src/budget.rs:584-593 | once a bill above its reservation is settled no admission is granted again, across restarts when the store took it and in the process when it did not |
| BudgetStops.StopHolds | crates/cbr-provider/src/budget.rs:584-593 | a stop holds: the store's for good, the process's until the process ends |
| BudgetStops.StoppedByNothingElse | crates/cbr-provider/src/budget.rs:891-907 | nothing else stops a store |
| BudgetStops.StopFreezesSpend | crates/cbr-provider/src/budget.rs:584-593 | while a store is stopped, spend within reservations does not grow |
| BudgetStops.KeptUntilSettled | crates/cbr-provider/src/budget.rs:684-707 | a bill the process keeps is kept until its reservation is settled |
| BudgetWindow.WindowIsBounded | crates/cbr-provider/src/budget.rs:817-841 | when settlements are of reservations inside the window of the last grant, the five hours before any instant from that grant on hold at most the window and the excess of their bills |
| BudgetWindow.WindowHoldsOutright | crates/cbr-provider/src/budget.rs:817-841 | and with no overrun, at most the window |
| BudgetWindow.KeptLandsInTime | crates/cbr-provider/src/budget.rs:523-541 | a kept bill that was in time when the store refused it is in time whenever it lands, with its own stamp |
| BudgetWindow.SettlementInWindow | crates/cbr-provider/src/budget.rs:770-785 | what a settlement does to the window, exactly: inside it, it replaces its reservation; outside, it adds the whole charge |
| BudgetWindow.SettlementRaisesExactly | crates/cbr-provider/src/budget.rs:770-785 | a settlement not above its reservation raises the window exactly when it charges something and its reservation has left the window |
| BudgetWindow.LateSettlementPassesTheWindow | crates/cbr-provider/src/budget.rs:770-785 | a run with no overrun and a settlement out of time that passes the window |
| BudgetMonth.SettlementRaisesMonthExactly | crates/cbr-provider/src/budget.rs:770-785 | a settlement not above its reservation raises a month exactly when it charges something, in that month, for a reservation of another |
| BudgetMonth.SettlementCarriedPassesTheMonth | crates/cbr-provider/src/budget.rs:770-785 | a run with no overrun and a settlement carried into the next month, which passes that month |
| Ledger.Ledger.Admit | crates/cbr-provider/src/budget.rs:494-541 | an admission is the run of trying each bill that is kept, in order, and then one step; its outcome is that step's, and never a grant from a stopped store |
| Ledger.Ledger.AdmitOnce | crates/cbr-provider/src/budget.rs:543-622 | stops, then ceilings, then what is left, each in its order, and one row either way |
| Ledger.Ledger.WriteUnwritten | crates/cbr-provider/src/budget.rs:523-541 | each kept bill is tried once, in order, as a settlement with its own instant; what the store took is forgotten, what it did not is kept, and the stop stays |
| Ledger.Ledger.SettleOnce | crates/cbr-provider/src/budget.rs:721-749 | the settlement lands whole, or leaves its reservation standing and is kept; nothing kept for another store is touched |
| Ledger.Ledger.KeepUnwritten | crates/cbr-provider/src/budget.rs:684-707 | kept once per reservation, only above it, only on a store with a file |
| Ledger.Ledger.Reconcile | crates/cbr-provider/src/wire/record.rs:175-211 | after a start that reconciled, every reservation on record as billed above it is settled and the store is stopped |
| Ledger.Ledger.Start | crates/cbr-provider/src/budget.rs:400-412 | a new process keeps nothing; only the rows speak |
| Ledger.Ledger.Note | crates/cbr-provider/src/budget.rs:858-870 | a note is one row more, of the kind it is given, or nothing |
| Calendar.CivilIsTheCalendar | crates/cbr-provider/src/clock.rs:118-136 | the closed form of the date is the calendar counted a day at a time from 1 January 1970, for every day |
| Calendar.CivilUndoesDays | crates/cbr-provider/src/clock.rs:171-179 | the closed form of the day count undoes it on every Gregorian date |
| Calendar.NextIsOneMore | crates/cbr-provider/src/clock.rs:171-179 | the next Gregorian day counts one more, across months, leap days and centuries |
| Calendar.YearsOfFourDigits | crates/cbr-provider/src/clock.rs:138-138 | the years written with four digits are exactly those before the year 10000 |
| Instants.UnixUndoesFormat | crates/cbr-provider/src/clock.rs:118-181 | reading undoes writing, in the clock's reader and the ledger's, for exactly the seconds before the year 10000 |
| Instants.OnlyRealDaysComeBack | crates/cbr-provider/src/clock.rs:147-181 | a text read comes back from its seconds exactly when it is an instant of a day its month has |
| Instants.ReadersExactly | crates/cbr-provider/src/clock.rs:147-181 | which texts the two readers take, field by field, and the seconds they make of them |
| Instants.ReadNumberExactly | crates/cbr-provider/src/clock.rs:147-170 | a field is a number exactly when it is one digit or more after a plus, a minus or no sign |
| Decimals.PlaceValue | crates/cbr-encoding/src/parse.rs:219-235 | the digits before others count for ten of each of them |
| Instants.DaysSpillOver | crates/cbr-provider/src/clock.rs:163-179 | a day past the end of its month is read as a day of the next |
| Instants.OrderIsTime | crates/cbr-provider/src/clock.rs:85-88 | texts are in dictionary order exactly when their seconds are in order, before the year 10000 |
| Instants.OrderIsTimeExactlyBelow | crates/cbr-provider/src/clock.rs:138-138 | and that is the largest bound below which they are |
| Instants.ReadersAgree | crates/cbr-provider/src/budget.rs:364-392 | where the ledger's reader and the clock's agree |
| Clock.Clock.Now | crates/cbr-provider/src/clock.rs:78-94 | the reading of each source; a file moves the clock forward only, and only with an instant |
| Clock.Clock.Open | crates/cbr-provider/src/clock.rs:51-69 | a file clock starts from a good instant or not at all |
| Clock.ClockNeverRunsBack | crates/cbr-provider/src/clock.rs:82-93 | over any contents of the file, no reading comes before an earlier one |
| Clock.ReadingIsTheLatest | crates/cbr-provider/src/clock.rs:82-93 | a reading is the latest of the good instants so far |
| Retrieval.CutIsTheCursor | crates/cbr-memory/src/retrieval.rs:621-654 | the cuts the sources are given take together exactly the rows after the one cursor |
| Retrieval.Search | crates/cbr-memory/src/retrieval.rs:469-615 | the loops over sources and candidates give the answer function's answer |
| Retrieval.FromCanonical | crates/cbr-memory/src/retrieval.rs:717-788 | the bounded read of a tree, its row limit and its read budget |
| Retrieval.TakePage | crates/cbr-memory/src/retrieval.rs:583-608 | where a page ends, what ended it, and the cursor it owes |
| Paging.TreeGivesItsRows | crates/cbr-memory/src/retrieval.rs:717-788 | a tree gives its matching rows past the cut, first come first, as far as the read budget reaches, and all of those below the limit |
| Paging.TreeSaysWhereItEnds | crates/cbr-memory/src/retrieval.rs:717-788 | it says the budget ended the read only when it did, and short of the limit whenever it did |
| Paging.ContributesFirst | crates/cbr-memory/src/retrieval.rs:676-708 | a source contributes the first of its rows past the cut, one more than a page: in order from its index, as it is walked from its tree |
| Paging.EverythingHolds | crates/cbr-memory/src/retrieval.rs:577-581 | everything a view has is every row of every source, once, in order |
| Shown.EverythingExactly | crates/cbr-memory/src/retrieval.rs:676-788 | a row is in everything a view has exactly when it is one of a source's: a hit of an index that is complete, or a chunk that holds every term of a file the tree's read reaches |
| Shown.EverythingAscends | crates/cbr-memory/src/retrieval.rs:556-581 | in order by score, then repository and path by code point, then first byte |
| Shown.SourceSaysWhy | crates/cbr-memory/src/retrieval.rs:479-554 | a complete source gives no reason; one that cannot be read, one with nothing found and one whose read the budget ended say so, and no other |
| Walking.PageIsTheStart | crates/cbr-memory/src/retrieval.rs:583-608 | a page is the start of everything after its cursor, clipped, and a cursor is owed exactly when more is left |
| Shown.AnswerIsCut | crates/cbr-memory/src/retrieval.rs:583-608 | each row of an answer is the matching candidate with the same repository, path, blob, first byte, lines, score and origin; its span is the smaller of the row's and the bytes allowed, and it is newly marked clipped exactly when it was cut |
| Shown.PageIsCut | crates/cbr-memory/src/retrieval.rs:583-608 | over steady sources so is a page, of what is left after its cursor |
| Walking.NextIsLater | crates/cbr-memory/src/retrieval.rs:602-607 | over any sources a walk ends: there is less after each cursor than after the one before |
| Walking.WalkYieldsEverything | crates/cbr-memory/src/retrieval.rs:469-615 | while no row of a source comes after two greater ones, a walk yields every row of every source exactly once, by score, repository, path and first byte |
| Shown.WalkIsCut | crates/cbr-memory/src/retrieval.rs:469-615 | and each row of a walk is the matching row of everything left, cut so |
| Losing.OneByOneExactly | crates/cbr-memory/src/retrieval.rs:727-730 | one row to a page, a walk yields everything exactly when no row of a source comes after two greater ones |
| Losing.WalkExactly | crates/cbr-memory/src/retrieval.rs:727-730 | and exactly then it does at every size of page and batch |
| Losing.FolderLastLosesARow | crates/cbr-memory/src/retrieval.rs:727-730 | a tree of three files, a folder's after those beside it, of which a walk shows fewer |
| Answers.AnswerKeepsToItsCaps | crates/cbr-memory/src/retrieval.rs:583-600 | rows, bytes of a span and bytes of a page each stay within their cap, a page of one row aside |
| Answers.AnswerNamesTheBasis | crates/cbr-memory/src/retrieval.rs:479-520 | an answer names every repository of the view and no other, each with the tree asked about, and calls complete only what was built to that tree by this compiler |
| Answers.PageIsTheMost | crates/cbr-memory/src/retrieval.rs:583-600 | a page is the most candidates, in order, that its rows and bytes have room for |
| Answers.DeclaresExactly | crates/cbr-memory/src/retrieval.rs:224-237 | for every view and bounds an answer declares its gaps exactly when each source silent about one has a row among the candidates that fit on the page |
| Answers.WhenItDeclares | crates/cbr-memory/src/retrieval.rs:224-237 | so it does when all candidates fit, when no cursor is owed, and when nothing was asked; with no row to a page, exactly when no source is silent |
| Answers.OneRepositoryDeclares | crates/cbr-memory/src/retrieval.rs:224-237 | and when there is one repository and a row to a page |
| Answers.TruncatedPageHidesAGap | crates/cbr-memory/src/retrieval.rs:531-554 | two repositories behind their indexes, the second's gap hidden by a page of one |
| Chunks.ChunksBounded | crates/cbr-memory/src/lexical.rs:117-157 | the chunks tile the text; each holds at most the lines allowed and fewer than the bytes allowed before its last line, starts at its own line, and ends with the line that fills it or with the text |
| Pieces.CutExactly | crates/cbr-memory/src/lexical.rs:117-157 | said by the places of line feeds: a cut is the whole text, one chunk after another, each ending with the first line that makes it as many lines, or as many bytes, as allowed, or else with the text, and numbered by the line feeds before it |
| Pieces.CutIsOne | crates/cbr-memory/src/lexical.rs:117-157 | and a text has one cut |
| Chunks.ChunksAreTheText | crates/cbr-memory/src/lexical.rs:100-106 | put together again the chunks are the text |
| Chunks.NeighboursTouch | crates/cbr-memory/src/lexical.rs:398-431 | however they are stored, the neighbours of a chunk are the chunks next to it, so an extended span is one range |
| Frames.FrameReader.NextFrame | crates/cbr-provider/src/frames.rs:55-115 | the next frame is the first frame of the unread stream, however it arrives; a timeout loses nothing; what is held of an unfinished frame is bounded and given exactly; a frame past a limit that shrank is too large, or dropped at the end |
| Frames.LineByLine | crates/cbr-provider/src/frames.rs:55-115 | a line within the limit is one frame, blank when it is nothing but spaces, tabs and returns; one past it is the last thing said; what no line feed ends is dropped, unless it is past it |
| Frames.HeldExactly | crates/cbr-provider/src/frames.rs:100-111 | more than the limit and one byte is held exactly when one read takes a frame without a line feed from the limit or less to more than that |
| Frames.HeldPastTheLimit | crates/cbr-provider/src/frames.rs:1-7 | whatever the limit, reads after which the limit and two bytes are held |
| Frames.FramesAreThePieces | crates/cbr-provider/src/frames.rs:82-111 | the frames of a stream are its pieces between line feeds |
| Frames.FramesOneByOne | crates/cbr-provider/src/frames.rs:82-111 | each piece in order; an unterminated tail is dropped; the first piece or tail past the limit is the last thing said |
| Frames.PiecesAreTheStream | crates/cbr-provider/src/frames.rs:1-7 | joined by line feeds the pieces are the stream, and hold none |
| Assembly.Assemble | crates/cbr-cli/src/context.rs:371-433 | from any peer the loop ends; the first call asks at the offset, for what was asked for up to the ceiling, which may be nothing; every other asks at the first missing byte for what is missing, one byte at least and the ceiling at most |
| Calls.AssembledExactly | crates/cbr-cli/src/context.rs:371-433 | from any peer: what comes of a read is what its last answer says, when every answer before brought bytes from where they were asked for, some, no more than asked, of one size and short of the end; a success is those bytes in turn, and each error has its answer |
| Assembly.SuccessIsTheRange | crates/cbr-cli/src/context.rs:371-433 | from any peer, a success is exactly as long as the range clipped to the reported size |
| Assembly.HonestPeerGivesTheArtifact | crates/cbr-cli/src/context.rs:349-370 | from an honest peer, however short its answers, the artifact's own bytes, or the error for an offset past its end |
| Assembly.WholeIsChecked | crates/cbr-cli/src/context.rs:438-450 | what is read whole has the cited digest or is refused, and a range never is |
| Grants.CoversResourceIsWider | crates/cbr-provider/src/grants.rs:38-67 | the width test holds exactly when every subject of the narrower is one of the wider, an empty prefix aside |
| Grants.Permits | crates/cbr-provider/src/grants.rs:333-348 | every right and every subject, rights reported first |
| Grants.ChildIsWithin | crates/cbr-provider/src/grants.rs:355-402 | whatever a child permits, and while it is unexpired with a current epoch, its parent permits and is |
| Grants.ChainNeverWidens | crates/cbr-provider/src/grants.rs:305-402 | so does every grant of a chain, whose constraints are all carried to the last |
| Grants.UsableInOrder | crates/cbr-provider/src/grants.rs:305-323 | usable exactly when not revoked, not expired and current, and otherwise the first of these that fails |
| Grants.CurrentExactly | crates/cbr-provider/src/grants.rs:318-323 | a bound grant is current exactly when the first epoch given for its scope is its own |
| Grants.MayDelegateExactly | crates/cbr-provider/src/grants.rs:355-402 | a grant may be delegated exactly when it is delegable, has depth to give, and the child is within it in depth, rights, subjects and time and carries its constraints and binding |
| Grants.ChainOfEveryLength | crates/cbr-provider/src/grants.rs:381-383 | a delegable grant has chains of every length up to its depth |
| Grants.OnlyRevocationIsLeft | crates/cbr-provider/src/grants.rs:305-402 | while the last grant of a chain is usable, nothing but its own revocation makes one before it unusable |
| Grants.ChainIsBounded | crates/cbr-provider/src/grants.rs:381-383 | a chain has no more links than its first grant's depth |
| Grants.ExpiredStaysExpired | crates/cbr-provider/src/grants.rs:309-317 | read from the provider's clock, an expired grant stays expired |
| Ids.DecodeUndoesEncode | crates/cbr-provider/src/ids.rs:73-119 | any bytes are spelled inside the identifier grammar and read back |
| Ids.ComesBackExactly | crates/cbr-provider/src/ids.rs:89-119 | a text that is read is the spelling of its bytes exactly when it escapes only what it must |
| Ids.SpelledExactly | crates/cbr-provider/src/ids.rs:89-119 | the spellings of bytes are exactly the texts that are read and escape only what they must |
| Ids.SpelledByByte | crates/cbr-provider/src/ids.rs:73-87 | a byte is spelled as the letter, digit, dot, line or dash it is, a slash as a colon, any other as a tilde and its two digits |
| Ids.Bounded | crates/cbr-provider/src/ids.rs:125-175 | the id is that of the name under its prefix, with the tail from the one place it starts |
| Ids.BoundedExactly | crates/cbr-provider/src/ids.rs:125-141 | an id is its name whole, or its prefix, the mark, half of the digest and the tail of the name, and no longer than 128 characters |
| Ids.IdentifierExactly | crates/cbr-provider/src/envelope.rs:56-67 | an identifier is 1 to 128 ASCII letters, digits and marks that starts with no mark |
| Ids.NeedlessEscapeIsRead | crates/cbr-provider/src/ids.rs:89-119 | `~41` is read, and nothing is spelled so |
| Ids.NoMarkInside | crates/cbr-provider/src/ids.rs:21-30 | the mark of a shortened id never comes out of the spelling |
| Ids.TailStart | crates/cbr-provider/src/ids.rs:146-175 | the tail starts at the first colon that fits, or the first place outside every escape, and is the longest such |
| Ids.TailStartIsOne | crates/cbr-provider/src/ids.rs:146-175 | there is one such place |
| Ids.OutsideExactly | crates/cbr-provider/src/ids.rs:146-175 | in a spelling the places outside every escape are those where the spelling of a byte ends |
| Ids.BoundedIsAnIdentifier | crates/cbr-provider/src/ids.rs:125-141 | under a prefix that leaves room, whatever is named gets an identifier |
| Ids.BoundedTellsApart | crates/cbr-provider/src/ids.rs:21-30 | a shortened id is never an unshortened one; unshortened ids tell names apart, shortened ones digests |
| Ids.SpansAreToldApart | crates/cbr-provider/src/ids.rs:178-180 | a span's id names one repository, path and first byte, when repositories hold no colon |
| Ids.NegativeStartsCollide | crates/cbr-provider/src/ids.rs:178-180 | with negative first bytes it would not |

## Left out

- Evaluator.Session.Fetch: `fuel` stands for the host's call stack; a computation that never ends comes to `Exhausted` where the program overflows its stack, storage errors are not modelled, and it is not proved that enough stack always finds the cycle of a computation that never ends.
- Histories.Replay: stops at the first input a caller may not set, after which the store's promise is void; assumes the functions are deterministic readers that pass on the errors of what they read, are the same whenever the store is opened, and that no input is set during an evaluation.
- Evaluator.Store.Evaluate: what an untracked read sees is fixed within a revision.
- Parsing.Parse: gives the kind of an error and not its byte offset; text is a sequence of code points, and UTF-8 validation is not modelled.
- Intent.IntentIsTheRequest: is about canonical bytes; the SHA-256 over them is not modelled.
- Budget.LimitPassed: counts in unbounded integers; the program adds in 64 bits.
- Ledger.Ledger.Admit: one call at a time; other connections of the process and other processes come between two steps, which the theorems about runs allow anywhere, and not inside one.
- BudgetRuns.SpendIsBounded: over runs whose notes are of the kinds the callers pass; the ledger would take one that names a spend, and count it.
- Instants.UnixOf: takes ASCII text; a multi-byte character across a field's edge, where the program panics, is not modelled.
- Walking.WalkYieldsEverything: for sources with distinct places; of a tree past the read budget the rows are those the budget reaches, and of one that cannot be read there are none; the scores are reals, and neither index nor tree changes between pages.
- Chunks.ChunksBounded: line numbers are unbounded where the program has 32 bits.
- Frames.HeldExactly: for a frame within the limit so far; one already past a limit that shrank is kept until its line feed.
- Frames.FrameReader.NextFrame: an input error other than a timeout ends the connection and is not modelled; one read gives at most 8192 bytes.
- Ids.TailStart: a text is its bytes, one character each; the digest is any 64 lower-case hexadecimal digits.
- Assembly.Assemble: offsets and lengths are unbounded where the program has 64 bits.
- `dependents`, the store of coverage and manifests, cursors as text, full-text matching and its ranking, the term splitter (whose case rules are the Unicode library's).
- Parsing and printing of grant records and envelopes, which are one check a branch.
- Sockets, stdio, threads, the keychain, launch configuration, model dialects and the command line.

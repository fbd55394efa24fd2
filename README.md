# unzippoo search core in Dafny

A model of the decision logic of `unzippoo`, a parallel ZIP password
brute-forcer (`src/main.rs`). Four pieces are modelled and proved:

- **Wordlist filtering** (`Wordlist`, wordlist.dfy): each line is trimmed with
  Rust's `str::trim` (Unicode White_Space, written out in `IsWhitespace`),
  blank lines are dropped and the rest keep their order. `LoadWordlist` is the
  loop of `load_wordlist`, proved equal to the specification `FilterLines`.
- **Target-member resolution** (`Resolver`, resolver.dfy): the first loadable,
  non-directory member of the archive's table, with the requested name when
  one is given; otherwise "not found" or "no files to test".
- **Verification classification** (`Verification`, verification.dfy):
  `password_matches` as a function of an `Archive` value whose fields stand
  for what the `zip` crate reports (parse success, the member table, and the
  results of decrypting and reading member `i` with a password).
- **Search coordination** (`Search`, search.dfy): a `Coordinator` class with
  the stop flag and winner slot of `main`, a `Visit` method per candidate, a
  `Search` loop and the outcome selection, and `Run` with the two setup checks
  (zero threads, empty filtered wordlist). The verification call is a
  parameter `verify: string -> Verdict`; `PasswordMatches(a, _, target)` is
  the function the program uses there.

Three behaviours of `src/main.rs` a reader might not expect:

- A target name that is absent from the archive is not a setup failure. Resolution
  runs inside every verification, so each candidate gets an Error and the run
  ends Exhausted (`MissingTargetExhausts`). The same holds for an archive that
  does not parse.
- Any successful read into the one-byte buffer is a Match, including a read of
  zero bytes (`Classify` ignores `ReadOk`'s count).
- The winner slot is overwritten on every Match, with no check that it is still
  empty. The model's `writes` counter shows that a sequential pass writes it
  at most once, because the stop flag is set before the write and checked
  before each verification.

## Model

| member | source | states |
|---|---|---|
| Wordlist.TrimStartSpec | src/main.rs:109 | trim_start leaves a suffix of the line, everything it cut is whitespace, and the rest does not start with whitespace |
| Wordlist.TrimEndSpec | src/main.rs:109 | trim_end leaves a prefix, everything it cut is whitespace, and the rest does not end with whitespace |
| Wordlist.TrimSpec | src/main.rs:109 | the trim is a contiguous slice of the line with only whitespace cut on both sides, has no whitespace at either end, and is empty exactly when the line is blank |
| Wordlist.TrimIdempotent | src/main.rs:109 | trimming a trimmed line changes nothing |
| Wordlist.FilterLines | src/main.rs:106-113 | filtering never yields more candidates than there are lines |
| Wordlist.FilterLinesTrimmed | src/main.rs:109-111 | every candidate is non-empty and is its own trim |
| Wordlist.KeptIndices | src/main.rs:110 | the kept positions are in range, strictly increasing, and include a line exactly when its trim is non-empty |
| Wordlist.FilterLinesKept | src/main.rs:106-113 | the k-th candidate is the trim of the line at the k-th kept position, so order is preserved and no line is used twice |
| Wordlist.FilterLinesAppend | src/main.rs:107-113 | the candidates of two concatenated line lists are the candidates of each, in order |
| Wordlist.BlankLineDropped | src/main.rs:110 | inserting a blank or whitespace-only line anywhere changes no candidate |
| Wordlist.FilterLinesIdempotent | src/main.rs:109-111 | filtering the candidate list again returns it unchanged |
| Wordlist.LoadWordlist | src/main.rs:106-115 | the push loop returns exactly the filtered wordlist |
| Resolver.FindFrom | src/main.rs:124-127 | the iterator search returns the least qualifying index from its start, and none exactly when no index from there qualifies |
| Resolver.Resolve | src/main.rs:122-136 | the resolved index is in range, loads, is not a directory, carries the target name when given, and no earlier entry qualifies; resolution fails exactly when no entry qualifies, with TargetNotFound for a name and NoFilesToTest without one |
| Verification.Classify | src/main.rs:138-148 | NoMatch exactly for InvalidPassword; Match exactly for a successful decrypt followed by a successful read; every other decrypt error or a read error is an Error with its detail, so NoMatch and Error never coincide |
| Verification.PasswordMatches | src/main.rs:118-149 | an archive that does not parse or a target that does not resolve gives an Error whatever the password; otherwise NoMatch and Match are decided by the decrypt and read results of the resolved member |
| Search.FirstMatchFrom | src/main.rs:62-72 | the least index from a start whose candidate verifies as Match, and none exactly when no later candidate does |
| Search.FirstMatch | src/main.rs:62-72 | the first candidate that verifies as Match, or none exactly when no candidate does |
| Search.DiagnosticsSound | src/main.rs:74-76 | every reported error names a verified candidate and the reason its verification gave |
| Search.DiagnosticsComplete | src/main.rs:74-76 | every verified candidate whose verification errors is reported, with that reason |
| Search.DiagnosticsAppend | src/main.rs:74-76 | the error stream of a concatenation is the two streams in order |
| Search.AllErrorsAllReported | src/main.rs:73-78 | when every verification errors, nothing matches and the error stream is exactly the candidates in order, each with its reason |
| Search.OneRejectionRestErrors | src/main.rs:73-78 | all errors but one wrong-password rejection: no match, and the error stream is that of the candidates before the rejected one followed by that of those after it, one line per erroring candidate |
| Search.MissingTargetExhausts | src/main.rs:128 | a target that cannot be resolved (or an archive that does not parse) makes the search end unmatched, with each candidate reported in order with that same resolution or parse error |
| Search.Coordinator.constructor | src/main.rs:58-59 | the search starts with the flag clear, the slot empty and nothing reported |
| Search.Coordinator.Visit | src/main.rs:62-77 | with the flag set nothing is verified and nothing changes; otherwise the candidate is verified, a Match sets the flag and fills the slot, NoMatch changes nothing and an Error only appends a diagnostic; the flag never clears and the slot is written at most once |
| Search.Coordinator.Search | src/main.rs:62-97 | the candidates are verified in order up to and including the first Match and none after; the outcome is Found with that candidate or Exhausted, always with the full candidate count |
| Search.Run | src/main.rs:38-98 | zero threads or an empty filtered wordlist is rejected with nothing verified; otherwise the result is Found with the first matching candidate or Exhausted, with the filtered wordlist's length as the count and the diagnostics of the candidates verified |

## Left out

- Command-line parsing with clap and the rayon pool construction (src/main.rs:18-48), including a failure of `build_global`: configuration glue; only the zero-thread check is modelled.
- Reading the archive file and opening or reading the wordlist file (src/main.rs:50-51, 102-108), including an I/O error part-way through the wordlist and how `lines()` splits the file: the lines arrive as a sequence of strings.
- The `zip` crate: parsing, `by_index`, `by_index_decrypt` and the decrypted reader are abstract inputs (`Archive`, `Entry.loadable`, `DecryptResult`, `ReadResult`).
- Timing with `Instant`, the text of the printed messages and the process exit status (src/main.rs:60, 75, 84-97): side effects; the outcome and diagnostics are returned instead.
- Search.Coordinator.Search: models one sequential interleaving in wordlist order; with several threads candidates run in any order, more than one may pass the stop check before the flag is set, and the last writer of the slot wins, so no first-writer guarantee is claimed for the parallel program.

/**
 * The search in `main` (src/main.rs:38-98), taken as one sequential pass over
 * the candidates: a stop flag and a winner slot, updated per candidate
 * according to the verdict of `password_matches`, then the choice of the
 * final message. The parallel iterator, the atomic flag and the mutex are
 * replaced by this single interleaving.
 */
module Search {
  import opened Wrappers
  import opened Wordlist
  import opened Verification
  import opened Resolver

  /** One line of the error stream of src/main.rs:75: the candidate and why it could not be checked. */
  datatype Diagnostic = Diagnostic(candidate: string, reason: Reason)

  /** The two final reports of src/main.rs:80-97; `attempts` is the reported candidate count. */
  datatype Outcome = Found(password: string, attempts: nat) | Exhausted(attempts: nat)

  /** The two checks that reject a run before any verification. */
  datatype SetupError =
    | ZeroThreads    // "--threads must be at least 1"
    | EmptyWordlist  // "Wordlist is empty"

  datatype RunResult = Completed(outcome: Outcome) | SetupFailed(error: SetupError)

  /** The least index at or after `from` whose candidate verifies as Match. */
  function FirstMatchFrom(cs: seq<string>, verify: string -> Verdict, from: nat): (r: Option<nat>)
    requires from <= |cs|
    ensures r.Some? ==> from <= r.value < |cs| && verify(cs[r.value]) == Match
    ensures r.Some? ==> forall j :: from <= j < r.value ==> verify(cs[j]) != Match
    ensures r.None? <==> forall j :: from <= j < |cs| ==> verify(cs[j]) != Match
    decreases |cs| - from
  {
    if from == |cs| then None
    else if verify(cs[from]) == Match then Some(from)
    else FirstMatchFrom(cs, verify, from + 1)
  }

  /** The position of the first candidate that verifies as Match, or None when none does. */
  function FirstMatch(cs: seq<string>, verify: string -> Verdict): (r: Option<nat>)
    ensures r.Some? ==> r.value < |cs| && verify(cs[r.value]) == Match
    ensures r.Some? ==> forall j :: 0 <= j < r.value ==> verify(cs[j]) != Match
    ensures r.None? <==> forall j :: 0 <= j < |cs| ==> verify(cs[j]) != Match
  {
    FirstMatchFrom(cs, verify, 0)
  }

  /** What verifying one candidate prints on the error stream. */
  function DiagnosticOf(c: string, verify: string -> Verdict): seq<Diagnostic> {
    match verify(c)
    case Error(reason) => [Diagnostic(c, reason)]
    case _ => []
  }

  /** The error stream of a pass that verifies the candidates `cs`, in order. */
  function Diagnostics(cs: seq<string>, verify: string -> Verdict): (r: seq<Diagnostic>)
    ensures |r| <= |cs|
  {
    if cs == [] then [] else Diagnostics(cs[..|cs| - 1], verify) + DiagnosticOf(cs[|cs| - 1], verify)
  }

  lemma DiagnosticsSnoc(cs: seq<string>, c: string, verify: string -> Verdict)
    ensures Diagnostics(cs + [c], verify) == Diagnostics(cs, verify) + DiagnosticOf(c, verify)
  {
  }

  /** Every diagnostic names a verified candidate and the reason its verification gave. */
  lemma {:induction false} DiagnosticsSound(cs: seq<string>, verify: string -> Verdict)
    ensures forall d :: d in Diagnostics(cs, verify) ==> d.candidate in cs && verify(d.candidate) == Error(d.reason)
  {
    if cs != [] {
      var n := |cs| - 1;
      DiagnosticsSound(cs[..n], verify);
      assert forall c :: c in cs[..n] ==> c in cs;
    }
  }

  /** The error stream of a concatenation is the streams of its parts, one after the other. */
  lemma {:induction false} DiagnosticsAppend(a: seq<string>, b: seq<string>, verify: string -> Verdict)
    ensures Diagnostics(a + b, verify) == Diagnostics(a, verify) + Diagnostics(b, verify)
  {
    if b == [] {
      assert a + b == a;
    } else {
      var n := |b| - 1;
      assert a + b == (a + b[..n]) + [b[n]];
      assert b == b[..n] + [b[n]];
      DiagnosticsAppend(a, b[..n], verify);
      DiagnosticsSnoc(a + b[..n], b[n], verify);
      DiagnosticsSnoc(b[..n], b[n], verify);
    }
  }

  /** Every Error verdict of a verified candidate is reported, with its reason. */
  lemma {:induction false} DiagnosticsComplete(cs: seq<string>, verify: string -> Verdict)
    ensures forall i :: 0 <= i < |cs| && verify(cs[i]).Error? ==>
              Diagnostic(cs[i], verify(cs[i]).reason) in Diagnostics(cs, verify)
  {
    if cs != [] {
      var n := |cs| - 1;
      DiagnosticsComplete(cs[..n], verify);
      assert forall i :: 0 <= i < n ==> cs[..n][i] == cs[i];
    }
  }

  /**
   * When every candidate errors, nothing matches and the error stream names
   * every candidate, in order, each with the reason its verification gave.
   */
  lemma {:induction false} AllErrorsAllReported(cs: seq<string>, verify: string -> Verdict)
    requires forall i :: 0 <= i < |cs| ==> verify(cs[i]).Error?
    ensures FirstMatch(cs, verify) == None
    ensures |Diagnostics(cs, verify)| == |cs|
    ensures forall i :: 0 <= i < |cs| ==> Diagnostics(cs, verify)[i] == Diagnostic(cs[i], verify(cs[i]).reason)
  {
    if cs != [] {
      var n := |cs| - 1;
      assert forall i :: 0 <= i < n ==> cs[..n][i] == cs[i];
      AllErrorsAllReported(cs[..n], verify);
    }
  }

  /**
   * Every candidate errors except one, `x`, that is rejected as a wrong
   * password: the pass still ends without a match, and the error stream is
   * that of the candidates before `x` followed by that of those after it,
   * so every other candidate is reported and `x` is not.
   */
  lemma OneRejectionRestErrors(a: seq<string>, x: string, b: seq<string>, verify: string -> Verdict)
    requires verify(x) == NoMatch
    requires forall i :: 0 <= i < |a| ==> verify(a[i]).Error?
    requires forall i :: 0 <= i < |b| ==> verify(b[i]).Error?
    ensures FirstMatch(a + [x] + b, verify) == None
    ensures Diagnostics(a + [x] + b, verify) == Diagnostics(a, verify) + Diagnostics(b, verify)
    ensures |Diagnostics(a + [x] + b, verify)| == |a| + |b|
  {
    var cs := a + [x] + b;
    forall j | 0 <= j < |cs| ensures verify(cs[j]) != Match {
      if j < |a| {
        assert cs[j] == a[j];
      } else if j > |a| {
        assert cs[j] == b[j - |a| - 1];
      }
    }
    DiagnosticsSkipRejected(a, x, b, verify);
    AllErrorsAllReported(a, verify);
    AllErrorsAllReported(b, verify);
  }

  lemma DiagnosticsSkipRejected(a: seq<string>, x: string, b: seq<string>, verify: string -> Verdict)
    requires verify(x) == NoMatch
    ensures Diagnostics(a + [x] + b, verify) == Diagnostics(a, verify) + Diagnostics(b, verify)
  {
    DiagnosticsSnoc(a, x, verify);
    DiagnosticsAppend(a + [x], b, verify);
  }

  /**
   * A target that cannot be resolved (or an archive that does not parse) is
   * not a setup failure: every candidate is reported, in order, with the
   * same parse or resolution error, and the search ends without a match.
   */
  lemma MissingTargetExhausts(a: Archive, target: Option<string>, cs: seq<string>)
    requires a.parses ==> Resolve(a.entries, target).Unresolved?
    ensures FirstMatch(cs, p => PasswordMatches(a, p, target)) == None
    ensures |Diagnostics(cs, p => PasswordMatches(a, p, target))| == |cs|
    ensures forall i :: 0 <= i < |cs| ==>
              Diagnostics(cs, p => PasswordMatches(a, p, target))[i] ==
              Diagnostic(cs[i], if a.parses then NoTarget(Resolve(a.entries, target).error) else ArchiveUnreadable)
  {
    AllErrorsAllReported(cs, p => PasswordMatches(a, p, target));
  }

  /**
   * The search state shared by the workers: the stop flag `found`
   * (src/main.rs:58) and the winner slot `winning_password` (src/main.rs:59),
   * plus the error stream. `attempted` records, in order, the candidates that
   * were passed to `verify`; `writes` counts writes to the winner slot.
   */
  class Coordinator {
    const verify: string -> Verdict
    var stop: bool
    var winner: Option<string>
    var diagnostics: seq<Diagnostic>
    ghost var attempted: seq<string>
    ghost var writes: nat

    /**
     * The slot is filled exactly when the flag is set, by one write, with the
     * last candidate verified; that candidate is the only Match among those
     * verified; the error stream has one line per Error verdict.
     */
    ghost predicate Valid()
      reads this
    {
      (stop <==> winner.Some?) &&
      writes == (if stop then 1 else 0) &&
      (stop ==> |attempted| > 0 && winner == Some(attempted[|attempted| - 1])) &&
      (forall j :: 0 <= j < |attempted| ==> (verify(attempted[j]) == Match <==> stop && j == |attempted| - 1)) &&
      diagnostics == Diagnostics(attempted, verify)
    }

    /** State at the start of the search (src/main.rs:58-59). */
    constructor (verify: string -> Verdict)
      ensures Valid() && this.verify == verify
      ensures !stop && winner == None && diagnostics == [] && attempted == [] && writes == 0
    {
      this.verify := verify;
      stop, winner, diagnostics := false, None, [];
      attempted, writes := [], 0;
    }

    /** The closure body of src/main.rs:62-77, for one candidate. */
    method Visit(candidate: string)
      requires Valid()
      modifies this
      ensures Valid()
      ensures old(stop) ==>
                stop && winner == old(winner) && diagnostics == old(diagnostics) &&
                attempted == old(attempted) && writes == old(writes)
      ensures !old(stop) ==> attempted == old(attempted) + [candidate]
      ensures !old(stop) && verify(candidate) == Match ==>
                stop && winner == Some(candidate) && diagnostics == old(diagnostics)
      ensures !old(stop) && verify(candidate) != Match ==>
                !stop && winner == None && diagnostics == old(diagnostics) + DiagnosticOf(candidate, verify)
    {
      if stop {
        return;
      }
      DiagnosticsSnoc(attempted, candidate, verify);
      attempted := attempted + [candidate];
      match verify(candidate)
      case Match =>
        stop := true;
        winner := Some(candidate);
        writes := writes + 1;
      case NoMatch =>
      case Error(reason) =>
        diagnostics := diagnostics + [Diagnostic(candidate, reason)];
    }

    /**
     * The whole pass and the outcome selection of src/main.rs:62-97. The
     * candidates are verified in order up to and including the first Match,
     * and none after it; the outcome names that candidate, or is Exhausted
     * when there is none; the count is always the full candidate count.
     */
    method Search(candidates: seq<string>) returns (outcome: Outcome)
      requires Valid() && attempted == []
      modifies this
      ensures Valid()
      ensures outcome.attempts == |candidates|
      ensures match FirstMatch(candidates, verify)
        case Some(k) =>
          outcome == Found(candidates[k], |candidates|) &&
          stop && winner == Some(candidates[k]) && attempted == candidates[..k + 1]
        case None =>
          outcome == Exhausted(|candidates|) &&
          !stop && winner == None && attempted == candidates
    {
      var i := 0;
      while i < |candidates|
        invariant 0 <= i <= |candidates|
        invariant Valid()
        invariant |attempted| <= i && attempted == candidates[..|attempted|]
        invariant !stop ==> |attempted| == i
      {
        assert candidates[..i + 1] == candidates[..i] + [candidates[i]];
        Visit(candidates[i]);
        i := i + 1;
      }
      var m := |attempted|;
      if stop {
        assert forall j :: 0 <= j < m ==> attempted[j] == candidates[j];
        assert FirstMatch(candidates, verify) == Some(m - 1);
      } else {
        assert attempted == candidates;
      }
      if winner.Some? {
        outcome := Found(winner.value, |candidates|);
      } else {
        outcome := Exhausted(|candidates|);
      }
    }
  }

  /**
   * `main` without its I/O: reject a zero thread count, filter the wordlist,
   * reject an empty one, then search. Either a setup error with nothing
   * verified, or the first matching candidate (else Exhausted) together with
   * the diagnostics of every candidate verified up to that point; the count
   * is the filtered wordlist's length.
   */
  method Run(threads: nat, lines: seq<string>, verify: string -> Verdict)
    returns (result: RunResult, diagnostics: seq<Diagnostic>)
    ensures threads == 0 ==> result == SetupFailed(ZeroThreads) && diagnostics == []
    ensures threads > 0 && FilterLines(lines) == [] ==> result == SetupFailed(EmptyWordlist) && diagnostics == []
    ensures threads > 0 && FilterLines(lines) != [] ==>
              result.Completed? && result.outcome.attempts == |FilterLines(lines)|
    ensures threads > 0 && FilterLines(lines) != [] ==>
              var cs := FilterLines(lines);
              match FirstMatch(cs, verify)
              case Some(k) => result == Completed(Found(cs[k], |cs|)) && diagnostics == Diagnostics(cs[..k + 1], verify)
              case None => result == Completed(Exhausted(|cs|)) && diagnostics == Diagnostics(cs, verify)
  {
    if threads == 0 {
      return SetupFailed(ZeroThreads), [];
    }
    var candidates := LoadWordlist(lines);
    if candidates == [] {
      return SetupFailed(EmptyWordlist), [];
    }
    var coordinator := new Coordinator(verify);
    var outcome := coordinator.Search(candidates);
    result, diagnostics := Completed(outcome), coordinator.diagnostics;
  }
}

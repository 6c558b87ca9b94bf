/**
  The conflicts the builder reports and the state it threads through its walk.

  The source writes each conflict to the error stream and keeps going; here a
  conflict is an abstract record appended in the order it is discovered, and
  the text of the message is not modelled.
 */
module Diagnostics {

  datatype DiagnosticKind = DuplicateClass | DuplicateFunction | DuplicateVariable

  /**
    One reported conflict: the clashing `name`, the `line` the message is
    tagged with, and `firstLine`, the line of the declaration that was kept.
   */
  datatype Diagnostic = Diagnostic(kind: DiagnosticKind, name: string, line: int, firstLine: int)
  {
    /** Duplicate methods and variables fail the build; a duplicate class does not. */
    predicate IsFatal()
    {
      kind != DuplicateClass
    }
  }

  predicate NoFatal(ds: seq<Diagnostic>)
  {
    forall i :: 0 <= i < |ds| ==> !ds[i].IsFatal()
  }

  lemma NoFatalAppend(a: seq<Diagnostic>, b: seq<Diagnostic>)
    ensures NoFatal(a + b) <==> NoFatal(a) && NoFatal(b)
  {
    if NoFatal(a) && NoFatal(b) {
      forall i | 0 <= i < |a + b|
        ensures !(a + b)[i].IsFatal()
      {
        if i >= |a| {
          assert (a + b)[i] == b[i - |a|];
        }
      }
    }
    if NoFatal(a + b) {
      forall i | 0 <= i < |a|
        ensures !a[i].IsFatal()
      {
        assert (a + b)[i] == a[i];
      }
      forall i | 0 <= i < |b|
        ensures !b[i].IsFatal()
      {
        assert (a + b)[|a| + i] == b[i];
      }
    }
  }

  /** Diagnostics reported in two stretches, one after the other, are fatal-free exactly when both stretches are. */
  lemma ExtendReports(base: seq<Diagnostic>, mid: seq<Diagnostic>, last: seq<Diagnostic>)
    requires |base| <= |mid| && mid[..|base|] == base
    requires |mid| <= |last| && last[..|mid|] == mid
    ensures |base| <= |last| && last[..|base|] == base
    ensures NoFatal(last[|base|..]) <==> NoFatal(mid[|base|..]) && NoFatal(last[|mid|..])
  {
    assert last[|base|..] == mid[|base|..] + last[|mid|..];
    NoFatalAppend(mid[|base|..], last[|mid|..]);
  }

  /** The reports of one kind, in the order they were made. */
  function OfKind(k: DiagnosticKind, ds: seq<Diagnostic>): (r: seq<Diagnostic>)
    ensures |r| <= |ds|
    ensures forall i :: 0 <= i < |r| ==> r[i].kind == k
    decreases |ds|
  {
    if ds == [] then []
    else
      var last := ds[|ds| - 1];
      OfKind(k, ds[..|ds| - 1]) + (if last.kind == k then [last] else [])
  }

  /** A report is kept by the filter exactly when it was made and is of kind `k`. */
  lemma {:induction false} OfKindMembers(k: DiagnosticKind, ds: seq<Diagnostic>)
    ensures forall d :: d in OfKind(k, ds) <==> d in ds && d.kind == k
    decreases |ds|
  {
    if ds != [] {
      OfKindMembers(k, ds[..|ds| - 1]);
      assert ds == ds[..|ds| - 1] + [ds[|ds| - 1]];
    }
  }

  lemma {:induction false} OfKindAppend(k: DiagnosticKind, a: seq<Diagnostic>, b: seq<Diagnostic>)
    ensures OfKind(k, a + b) == OfKind(k, a) + OfKind(k, b)
    decreases |b|
  {
    if b == [] {
      assert a + b == a;
    } else {
      OfKindAppend(k, a, b[..|b| - 1]);
      assert (a + b)[..|a + b| - 1] == a + b[..|b| - 1];
      assert (a + b)[|a + b| - 1] == b[|b| - 1];
    }
  }

  /** Reports of other kinds only leave nothing of kind `k`. */
  lemma {:induction false} OfKindNone(k: DiagnosticKind, ds: seq<Diagnostic>)
    requires forall i :: 0 <= i < |ds| ==> ds[i].kind != k
    ensures OfKind(k, ds) == []
    decreases |ds|
  {
    if ds != [] {
      OfKindNone(k, ds[..|ds| - 1]);
    }
  }

  /** Two stretches of reports with nothing of kind `k` make one such stretch. */
  lemma OfKindNoneExtend(k: DiagnosticKind, base: seq<Diagnostic>, mid: seq<Diagnostic>, last: seq<Diagnostic>)
    requires |base| <= |mid| && mid[..|base|] == base
    requires |mid| <= |last| && last[..|mid|] == mid
    requires OfKind(k, mid[|base|..]) == [] && OfKind(k, last[|mid|..]) == []
    ensures OfKind(k, last[|base|..]) == []
  {
    assert last[|base|..] == mid[|base|..] + last[|mid|..];
    OfKindAppend(k, mid[|base|..], last[|mid|..]);
  }

  /**
    The state the builder threads through its walk: the structure built so
    far, the single success flag, and the diagnostics reported so far.
   */
  datatype Walk<S> = Walk(value: S, success: bool, diagnostics: seq<Diagnostic>)
}

/** Stacks as sequences, oldest entry first: the list comprehension that
    filters a stack, the top lookup, and their properties. */
module Stacks {
  import opened Contexts

  function Last(s: seq<Ctx>): (r: Ctx)
    requires s != []
  {
    s[|s| - 1]
  }

  function DropLast(s: seq<Ctx>): (r: seq<Ctx>)
    requires s != []
  {
    s[..|s| - 1]
  }

  /** `[item for item in s if p(item)]`. */
  function Keep(s: seq<Ctx>, p: Ctx -> bool): (r: seq<Ctx>)
    ensures |r| <= |s|
    ensures forall i :: 0 <= i < |r| ==> p(r[i])
    ensures forall i :: 0 <= i < |s| && p(s[i]) ==> s[i] in r
    decreases |s|
  {
    if s == [] then []
    else
      var r := Keep(DropLast(s), p) + (if p(Last(s)) then [Last(s)] else []);
      assert forall i :: 0 <= i < |s| - 1 ==> s[i] == DropLast(s)[i];
      r
  }

  /** Filtering keeps relative order: it distributes over concatenation. */
  lemma {:induction false} KeepAppend(a: seq<Ctx>, b: seq<Ctx>, p: Ctx -> bool)
    ensures Keep(a + b, p) == Keep(a, p) + Keep(b, p)
    decreases |b|
  {
    if b == [] {
      assert a + b == a;
    } else {
      assert DropLast(a + b) == a + DropLast(b);
      assert Last(a + b) == Last(b);
      KeepAppend(a, DropLast(b), p);
    }
  }

  /** Filtering keeps every matching entry as often as it occurs, and no other. */
  lemma {:induction false} KeepCount(s: seq<Ctx>, p: Ctx -> bool, x: Ctx)
    ensures multiset(Keep(s, p))[x] == if p(x) then multiset(s)[x] else 0
    decreases |s|
  {
    if s != [] {
      KeepCount(DropLast(s), p, x);
      assert s == DropLast(s) + [Last(s)];
    }
  }

  /** Filtering changes nothing exactly when every entry matches. */
  lemma {:induction false} KeepAll(s: seq<Ctx>, p: Ctx -> bool)
    ensures (forall i :: 0 <= i < |s| ==> p(s[i])) <==> Keep(s, p) == s
    decreases |s|
  {
    if s != [] && forall i :: 0 <= i < |s| ==> p(s[i]) {
      assert forall i :: 0 <= i < |s| - 1 ==> DropLast(s)[i] == s[i];
      KeepAll(DropLast(s), p);
      assert s == DropLast(s) + [Last(s)];
    }
  }

  /** Filtering leaves nothing exactly when no entry matches. */
  lemma {:induction false} KeepNone(s: seq<Ctx>, p: Ctx -> bool)
    ensures (forall i :: 0 <= i < |s| ==> !p(s[i])) <==> Keep(s, p) == []
    decreases |s|
  {
    if s != [] && forall i :: 0 <= i < |s| ==> !p(s[i]) {
      assert forall i :: 0 <= i < |s| - 1 ==> DropLast(s)[i] == s[i];
      KeepNone(DropLast(s), p);
    }
  }

  /** Two filters that agree on every entry of `s` select the same entries. */
  lemma {:induction false} KeepCongruent(s: seq<Ctx>, p: Ctx -> bool, q: Ctx -> bool)
    requires forall i :: 0 <= i < |s| ==> p(s[i]) == q(s[i])
    ensures Keep(s, p) == Keep(s, q)
    decreases |s|
  {
    if s != [] {
      assert forall i :: 0 <= i < |s| - 1 ==> DropLast(s)[i] == s[i];
      KeepCongruent(DropLast(s), p, q);
    }
  }

  /** `queue[-1]`, or NoContextError when the list is empty. */
  function Top(s: seq<Ctx>): (r: Result<Ctx>)
  {
    if s == [] then Failure(NoContextError) else Success(Last(s))
  }

  /** Reference definition of a "most recent match" lookup: scan from the top
      of the stack down and return the first entry that satisfies `p`. */
  function ScanFromTop(s: seq<Ctx>, p: Ctx -> bool): (r: Result<Ctx>)
    decreases |s|
  {
    if s == [] then Failure(NoContextError)
    else if p(Last(s)) then Success(Last(s))
    else ScanFromTop(DropLast(s), p)
  }

  /** The top of the filtered stack is what the scan from the top finds. */
  lemma {:induction false} TopOfKeepIsScan(s: seq<Ctx>, p: Ctx -> bool)
    ensures Top(Keep(s, p)) == ScanFromTop(s, p)
    decreases |s|
  {
    if s != [] && !p(Last(s)) {
      TopOfKeepIsScan(DropLast(s), p);
    }
  }

  /** The scan fails exactly when nothing matches, and otherwise returns a
      matching entry above which no entry matches. */
  lemma {:induction false} ScanFindsLastMatch(s: seq<Ctx>, p: Ctx -> bool)
    ensures ScanFromTop(s, p).Failure? <==> forall i :: 0 <= i < |s| ==> !p(s[i])
    ensures ScanFromTop(s, p).Failure? ==> ScanFromTop(s, p).error == NoContextError
    ensures ScanFromTop(s, p).Success? ==>
              exists i :: 0 <= i < |s| && s[i] == ScanFromTop(s, p).value && p(s[i]) &&
                          forall j :: i < j < |s| ==> !p(s[j])
    decreases |s|
  {
    if s != [] {
      var n := |s| - 1;
      if p(Last(s)) {
        assert s[n] == Last(s);
      } else {
        ScanFindsLastMatch(DropLast(s), p);
        assert forall i :: 0 <= i < n ==> DropLast(s)[i] == s[i];
        if ScanFromTop(s, p).Success? {
          var i :| 0 <= i < n && DropLast(s)[i] == ScanFromTop(s, p).value && p(DropLast(s)[i]) &&
                   forall j :: i < j < n ==> !p(DropLast(s)[j]);
          assert forall j :: i < j < |s| ==> !p(s[j]);
        }
      }
    }
  }

  /** With x:A, y:C, z:B active, filtering on {A, B} finds z; once z has
      left, it finds x, passing over y. */
  lemma FilterSkipsNonMatching(x: Ctx, y: Ctx, z: Ctx, h: Hierarchy)
    requires h == map[] && x.cls != y.cls && z.cls != y.cls
    ensures ScanFromTop([x, y, z], Matcher(h, Classes({x.cls, z.cls}))) == Success(z)
    ensures ScanFromTop([x, y], Matcher(h, Classes({x.cls, z.cls}))) == Success(x)
  {
    assert DropLast([x, y]) == [x];
  }
}

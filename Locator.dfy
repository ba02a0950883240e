/** Finding the fenced code block that holds a command's usage tag
    (`index_usage_section`): one pass records the fence lines and the lines that
    contain the tag, then the tag must occur exactly once and be enclosed by a
    fence line at or before it and a fence line after it. */
module Locator {
  import opened PyStr

  /** The fence delimiter: three backticks. */
  const Fence: string := "```"

  /** Why a usage tag could not be located; in the program each of these prints a
      message and exits with status 1. */
  datatype Reason = TagNotFound | AmbiguousTag | NoEnclosingFence

  /** The fence lines around the usage tag, or why there are none. */
  datatype Resolution = Resolved(before: nat, after: nat) | Unresolved(reason: Reason)

  /** A line counts as a fence when, once stripped, it starts with three backticks
      and is not a longer-than-six-character line that also ends with them. */
  predicate IsFenceLine(line: string) {
    var s := Strip(line);
    StartsWith(s, Fence) && !(6 < |s| && EndsWith(s, Fence))
  }

  /** A line holds the usage tag when the tag is a piece of the stripped line
      lowered; the tag itself is not lowered. */
  predicate IsUsageLine(line: string, tag: string) {
    Contains(Lower(Strip(line)), tag)
  }

  /** Entry `i` of `xs` is below entry `j`. */
  predicate Below(xs: seq<nat>, i: nat, j: nat)
    requires i < |xs| && j < |xs|
  {
    xs[i] < xs[j]
  }

  /** Every entry of `xs` is below every later one. */
  predicate Increasing(xs: seq<nat>) {
    forall i, j :: 0 <= i < j < |xs| ==> Below(xs, i, j)
  }

  /** An increasing list stays increasing when an entry above all of its own is
      appended. */
  lemma IncreasingSnoc(xs: seq<nat>, n: nat)
    requires Increasing(xs) && forall k :: 0 <= k < |xs| ==> xs[k] < n
    ensures Increasing(xs + [n])
  {
    var ys := xs + [n];
    forall i, j | 0 <= i < j < |ys| ensures Below(ys, i, j) {
      if j < |xs| {
        assert Below(xs, i, j);
      }
    }
  }

  /** Dropping the last entry of an increasing list leaves it increasing, and every
      other entry is below the last. */
  lemma IncreasingInit(xs: seq<nat>)
    requires xs != []
    ensures Increasing(xs) ==> Increasing(xs[..|xs| - 1])
    ensures Increasing(xs) ==> forall k :: 0 <= k < |xs| - 1 ==> xs[k] < xs[|xs| - 1]
  {
    if Increasing(xs) {
      var init := xs[..|xs| - 1];
      forall i, j | 0 <= i < j < |init| ensures Below(init, i, j) {
        assert Below(xs, i, j);
      }
      forall k | 0 <= k < |xs| - 1 ensures xs[k] < xs[|xs| - 1] {
        assert Below(xs, k, |xs| - 1);
      }
    }
  }

  /** The indices of the fence lines of `doc`, in increasing order. */
  function FenceIndices(doc: seq<string>): (r: seq<nat>)
    ensures Increasing(r)
    ensures forall k :: 0 <= k < |r| ==> r[k] < |doc| && IsFenceLine(doc[r[k]])
    ensures forall i {:trigger IsFenceLine(doc[i])} :: 0 <= i < |doc| && IsFenceLine(doc[i]) ==> i in r
  {
    if doc == [] then []
    else
      var init, last := doc[..|doc| - 1], |doc| - 1;
      assert forall i :: 0 <= i < |init| ==> init[i] == doc[i];
      var r := FenceIndices(init);
      if IsFenceLine(doc[last]) then IncreasingSnoc(r, last); r + [last] else r
  }

  /** The indices of the lines of `doc` that hold `tag`, in increasing order. */
  function UsageIndices(doc: seq<string>, tag: string): (r: seq<nat>)
    ensures Increasing(r)
    ensures forall k :: 0 <= k < |r| ==> r[k] < |doc| && IsUsageLine(doc[r[k]], tag)
    ensures forall i {:trigger IsUsageLine(doc[i], tag)} :: 0 <= i < |doc| && IsUsageLine(doc[i], tag) ==> i in r
  {
    if doc == [] then []
    else
      var init, last := doc[..|doc| - 1], |doc| - 1;
      assert forall i :: 0 <= i < |init| ==> init[i] == doc[i];
      var r := UsageIndices(init, tag);
      if IsUsageLine(doc[last], tag) then IncreasingSnoc(r, last); r + [last] else r
  }

  /** The last of `xs`, in order, that is at most `u`. */
  function LastAtOrBefore(xs: seq<nat>, u: nat): (r: Option<nat>)
    ensures r.Some? ==> r.value in xs && r.value <= u
    ensures r.None? <==> forall k :: 0 <= k < |xs| ==> xs[k] > u
    ensures r.Some? && Increasing(xs) ==> forall k :: 0 <= k < |xs| && xs[k] <= u ==> xs[k] <= r.value
  {
    if xs == [] then None
    else if xs[|xs| - 1] <= u then IncreasingInit(xs); Some(xs[|xs| - 1])
    else
      IncreasingInit(xs);
      var init := xs[..|xs| - 1];
      assert forall k :: 0 <= k < |init| ==> init[k] == xs[k];
      LastAtOrBefore(init, u)
  }

  /** The first of `xs`, in order, that is greater than `u`. */
  function FirstAfter(xs: seq<nat>, u: nat): (r: Option<nat>)
    ensures r.Some? ==> r.value in xs && r.value > u
    ensures r.None? <==> forall k :: 0 <= k < |xs| ==> xs[k] <= u
    ensures r.Some? && Increasing(xs) ==> forall k :: 0 <= k < |xs| && xs[k] > u ==> r.value <= xs[k]
  {
    if xs == [] then None
    else
      IncreasingInit(xs);
      var init := xs[..|xs| - 1];
      assert forall k :: 0 <= k < |init| ==> init[k] == xs[k];
      match FirstAfter(init, u)
      case Some(a) => Some(a)
      case None => if xs[|xs| - 1] > u then Some(xs[|xs| - 1]) else None
  }

  /** What `index_usage_section` decides for `tag` in `doc`. */
  function Locate(doc: seq<string>, tag: string): (r: Resolution)
    ensures r.Resolved? ==> r.before < r.after < |doc|
  {
    var usages := UsageIndices(doc, tag);
    if |usages| == 0 then Unresolved(TagNotFound)
    else if 1 < |usages| then Unresolved(AmbiguousTag)
    else
      var fences := FenceIndices(doc);
      match (LastAtOrBefore(fences, usages[0]), FirstAfter(fences, usages[0]))
      case (Some(b), Some(a)) => Resolved(b, a)
      case _ => Unresolved(NoEnclosingFence)
  }

  /** The scanning pass: one walk over the lines that records, in order, the fence
      lines and the lines holding the tag. */
  method ScanLines(doc: seq<string>, tag: string) returns (fences: seq<nat>, usages: seq<nat>)
    ensures fences == FenceIndices(doc)
    ensures usages == UsageIndices(doc, tag)
  {
    fences, usages := [], [];
    for ix := 0 to |doc|
      invariant fences == FenceIndices(doc[..ix])
      invariant usages == UsageIndices(doc[..ix], tag)
    {
      assert doc[..ix + 1][..ix] == doc[..ix];
      var line := doc[ix];
      if IsFenceLine(line) {
        fences := fences + [ix];
      }
      if IsUsageLine(line, tag) {
        usages := usages + [ix];
      }
    }
    assert doc[..|doc|] == doc;
  }

  /** The second loop of `index_usage_section`: walking the fence indices in order,
      remember the last one at or before `u` and the first one after it. */
  method EnclosingFences(fences: seq<nat>, u: nat) returns (before: Option<nat>, after: Option<nat>)
    ensures before == LastAtOrBefore(fences, u)
    ensures after == FirstAfter(fences, u)
  {
    before, after := None, None;
    for i := 0 to |fences|
      invariant before == LastAtOrBefore(fences[..i], u)
      invariant after == FirstAfter(fences[..i], u)
    {
      assert fences[..i + 1][..i] == fences[..i];
      var x := fences[i];
      if x <= u {
        before := Some(x);
      } else if after.None? {
        after := Some(x);
      }
    }
    assert fences[..|fences|] == fences;
  }

  /** `index_usage_section`: scan, reject a missing or repeated tag, then pick the
      last fence at or before the tag's line and the first fence after it. */
  method IndexUsageSection(doc: seq<string>, tag: string) returns (r: Resolution)
    ensures r == Locate(doc, tag)
  {
    var fences, usages := ScanLines(doc, tag);
    if 0 == |usages| {
      return Unresolved(TagNotFound);
    }
    if 1 < |usages| {
      return Unresolved(AmbiguousTag);
    }
    var before, after := EnclosingFences(fences, usages[0]);
    if before.None? || after.None? {
      return Unresolved(NoEnclosingFence);
    }
    return Resolved(before.value, after.value);
  }

  /** `u` is the one line of `doc` that holds `tag`. */
  predicate UniqueUsage(doc: seq<string>, tag: string, u: nat) {
    u < |doc| && IsUsageLine(doc[u], tag)
    && forall i {:trigger IsUsageLine(doc[i], tag)} :: 0 <= i < |doc| && IsUsageLine(doc[i], tag) ==> i == u
  }

  /** Lines `b` and `a` are fence lines around line `u` with no fence line between them. */
  predicate EnclosingBlock(doc: seq<string>, b: nat, a: nat, u: nat) {
    b <= u < a < |doc| && IsFenceLine(doc[b]) && IsFenceLine(doc[a])
    && forall k {:trigger IsFenceLine(doc[k])} :: b < k < a ==> !IsFenceLine(doc[k])
  }

  /** With a single line holding the tag, the scan records exactly that line. */
  lemma {:induction false} UsageIndicesUnique(doc: seq<string>, tag: string, u: nat)
    requires UniqueUsage(doc, tag, u)
    ensures UsageIndices(doc, tag) == [u]
  {
    var us := UsageIndices(doc, tag);
    assert u in us;
    forall k | 0 <= k < |us| ensures us[k] == u {
      assert IsUsageLine(doc[us[k]], tag);
    }
    assert 1 < |us| ==> Below(us, 0, 1);
    assert |us| == 1 && us[0] == u;
  }

  /** The tag is reported missing exactly when no line holds it. */
  lemma LocateNotFound(doc: seq<string>, tag: string)
    ensures Locate(doc, tag) == Unresolved(TagNotFound) <==>
              forall i :: 0 <= i < |doc| ==> !IsUsageLine(doc[i], tag)
  {
    var us := UsageIndices(doc, tag);
    assert Locate(doc, tag) == Unresolved(TagNotFound) <==> |us| == 0;
    assert |us| > 0 ==> IsUsageLine(doc[us[0]], tag);
    forall i | 0 <= i < |doc| && IsUsageLine(doc[i], tag) ensures |us| > 0 {
      assert i in us;
    }
  }

  /** The tag is reported ambiguous exactly when two different lines hold it. */
  lemma LocateAmbiguous(doc: seq<string>, tag: string)
    ensures Locate(doc, tag) == Unresolved(AmbiguousTag) <==>
              exists i, j :: 0 <= i < j < |doc| && IsUsageLine(doc[i], tag) && IsUsageLine(doc[j], tag)
  {
    var us := UsageIndices(doc, tag);
    if 1 < |us| {
      assert Below(us, 0, 1);
      assert 0 <= us[0] < us[1] < |doc| && IsUsageLine(doc[us[0]], tag) && IsUsageLine(doc[us[1]], tag);
    }
    if i, j :| 0 <= i < j < |doc| && IsUsageLine(doc[i], tag) && IsUsageLine(doc[j], tag) {
      assert i in us && j in us;
      var ki :| 0 <= ki < |us| && us[ki] == i;
      var kj :| 0 <= kj < |us| && us[kj] == j;
      assert ki != kj;
    }
  }

  /** With the tag on line `u` only, `Locate` returns the range `(b, a)` exactly when
      `b` and `a` are fence lines with `b <= u < a` and no fence line between them:
      `b` is then the last fence at or before `u` and `a` the first fence after it. */
  lemma LocateResolvedIff(doc: seq<string>, tag: string, u: nat, b: nat, a: nat)
    requires UniqueUsage(doc, tag, u)
    ensures Locate(doc, tag) == Resolved(b, a) <==> EnclosingBlock(doc, b, a, u)
  {
    if Locate(doc, tag) == Resolved(b, a) {
      LocateEnclosing(doc, tag, u, b, a);
    }
    if EnclosingBlock(doc, b, a, u) {
      EnclosingLocates(doc, tag, u, b, a);
    }
  }

  /** A range `Locate` returns is a block around the tag's only line. */
  lemma LocateEnclosing(doc: seq<string>, tag: string, u: nat, b: nat, a: nat)
    requires UniqueUsage(doc, tag, u) && Locate(doc, tag) == Resolved(b, a)
    ensures EnclosingBlock(doc, b, a, u)
  {
    UsageIndicesUnique(doc, tag, u);
    var fences := FenceIndices(doc);
    assert LastAtOrBefore(fences, u) == Some(b) && FirstAfter(fences, u) == Some(a);
    forall k | b < k < a ensures !IsFenceLine(doc[k]) {
      assert IsFenceLine(doc[k]) ==> k in fences;
    }
  }

  /** A block around the tag's only line is the range `Locate` returns. */
  lemma EnclosingLocates(doc: seq<string>, tag: string, u: nat, b: nat, a: nat)
    requires UniqueUsage(doc, tag, u) && EnclosingBlock(doc, b, a, u)
    ensures Locate(doc, tag) == Resolved(b, a)
  {
    UsageIndicesUnique(doc, tag, u);
    var fences := FenceIndices(doc);
    forall k | 0 <= k < |fences| ensures fences[k] <= b || a <= fences[k] {
      assert IsFenceLine(doc[fences[k]]);
    }
    Bracketed(fences, u, b, a);
  }

  /** In an increasing list with `b` and `a` in it and nothing strictly between
      them, `b` is the last entry at or before any `u` in `[b, a)` and `a` the first
      one after it. */
  lemma {:induction false} Bracketed(xs: seq<nat>, u: nat, b: nat, a: nat)
    requires Increasing(xs) && b in xs && a in xs && b <= u < a
    requires forall k :: 0 <= k < |xs| ==> xs[k] <= b || a <= xs[k]
    ensures LastAtOrBefore(xs, u) == Some(b) && FirstAfter(xs, u) == Some(a)
  {
    var jb :| 0 <= jb < |xs| && xs[jb] == b;
    var ja :| 0 <= ja < |xs| && xs[ja] == a;
    var lb, fa := LastAtOrBefore(xs, u), FirstAfter(xs, u);
    assert lb.Some? && b <= lb.value <= u;
    assert fa.Some? && u < fa.value <= a;
    var kb :| 0 <= kb < |xs| && xs[kb] == lb.value;
    var ka :| 0 <= ka < |xs| && xs[ka] == fa.value;
    assert xs[kb] <= b && a <= xs[ka];
  }

  /** With the tag on line `u` only, resolution fails for want of a block exactly
      when no fence line lies at or before `u`, or none lies after it. */
  lemma LocateNoFence(doc: seq<string>, tag: string, u: nat)
    requires UniqueUsage(doc, tag, u)
    ensures Locate(doc, tag) == Unresolved(NoEnclosingFence) <==>
              (forall k :: 0 <= k <= u ==> !IsFenceLine(doc[k]))
              || (forall k :: u < k < |doc| ==> !IsFenceLine(doc[k]))
  {
    UsageIndicesUnique(doc, tag, u);
    NoFenceAtOrBefore(doc, u);
    NoFenceAfter(doc, u);
  }

  /** No fence index lies at or before `u` exactly when no line up to `u` is a fence. */
  lemma {:induction false} NoFenceAtOrBefore(doc: seq<string>, u: nat)
    requires u < |doc|
    ensures LastAtOrBefore(FenceIndices(doc), u).None? <==>
              forall k :: 0 <= k <= u ==> !IsFenceLine(doc[k])
  {
    var fences := FenceIndices(doc);
    if k :| 0 <= k <= u && IsFenceLine(doc[k]) {
      assert k in fences;
    }
  }

  /** No fence index lies after `u` exactly when no line after `u` is a fence. */
  lemma {:induction false} NoFenceAfter(doc: seq<string>, u: nat)
    ensures FirstAfter(FenceIndices(doc), u).None? <==>
              forall k :: u < k < |doc| ==> !IsFenceLine(doc[k])
  {
    var fences := FenceIndices(doc);
    if k :| u < k < |doc| && IsFenceLine(doc[k]) {
      assert k in fences;
    }
  }

  /** A resolved range always encloses the one line holding the tag. */
  lemma LocateResolved(doc: seq<string>, tag: string)
    requires Locate(doc, tag).Resolved?
    ensures exists u :: UniqueUsage(doc, tag, u)
              && EnclosingBlock(doc, Locate(doc, tag).before, Locate(doc, tag).after, u)
  {
    var us := UsageIndices(doc, tag);
    var u := us[0];
    assert UniqueUsage(doc, tag, u) by {
      assert us == [u];
      forall i | 0 <= i < |doc| && IsUsageLine(doc[i], tag) ensures i == u {
        assert i in us;
      }
    }
    LocateResolvedIff(doc, tag, u, Locate(doc, tag).before, Locate(doc, tag).after);
  }

  /** The line holding the tag in a document where the tag resolves. */
  lemma ResolvedUsage(doc: seq<string>, tag: string) returns (u: nat)
    requires Locate(doc, tag).Resolved?
    ensures UniqueUsage(doc, tag, u)
    ensures EnclosingBlock(doc, Locate(doc, tag).before, Locate(doc, tag).after, u)
  {
    LocateResolved(doc, tag);
    u :| UniqueUsage(doc, tag, u) && EnclosingBlock(doc, Locate(doc, tag).before, Locate(doc, tag).after, u);
  }

  /** A block around the tag's only line is what `Locate` returns. */
  lemma BlockResolves(doc: seq<string>, tag: string, b: nat, a: nat, u: nat)
    requires UniqueUsage(doc, tag, u) && EnclosingBlock(doc, b, a, u)
    ensures Locate(doc, tag) == Resolved(b, a)
  {
    LocateResolvedIff(doc, tag, u, b, a);
  }

  /** Only the document line is lowered, so a tag with an upper-case letter (one
      derived from a command such as `Cmd3`) is never found. */
  lemma UpperCaseTagNotFound(doc: seq<string>, tag: string, k: nat)
    requires k < |tag| && IsUpper(tag[k])
    ensures Locate(doc, tag) == Unresolved(TagNotFound)
  {
    forall i | 0 <= i < |doc| ensures !IsUsageLine(doc[i], tag) {
      NoUpperNotContained(Lower(Strip(doc[i])), tag, k);
    }
    LocateNotFound(doc, tag);
  }
}

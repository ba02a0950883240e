/** Replacing the content of a located usage block with a command's help text:
    the lines up to and including the opening fence are kept, then every
    "\n"-separated piece of the help text follows with four spaces in front, then
    the lines from the closing fence on. */
module Splicing {
  import opened PyStr
  import opened Locator

  /** The indentation put in front of every inserted line. */
  const Indent: string := "    "

  /** The lines inserted for a help text: one per "\n"-separated piece, each with
      the indentation in front, blank pieces included. */
  function HelpLines(help: string): (r: seq<string>)
    ensures |r| == Count(help, '\n') + 1
    ensures forall k {:trigger r[k]} :: 0 <= k < |r| ==> r[k] == Indent + Split(help, '\n')[k]
  {
    var pieces := Split(help, '\n');
    seq(|pieces|, k requires 0 <= k < |pieces| => Indent + pieces[k])
  }

  /** `doc[:before + 1] + [indent + t for t in help.split("\n")] + doc[after:]`. */
  function Splice(doc: seq<string>, before: nat, after: nat, help: string): (r: seq<string>)
    requires before < after <= |doc|
    ensures |r| == (before + 1) + (Count(help, '\n') + 1) + (|doc| - after)
    ensures r[..before + 1] == doc[..before + 1]
    ensures forall i :: before < i <= before + Count(help, '\n') + 1 ==>
              r[i] == Indent + Split(help, '\n')[i - before - 1]
    ensures r[before + 1 + Count(help, '\n') + 1..] == doc[after..]
  {
    var lines := HelpLines(help);
    ReplacedParts(doc, before, after, lines);
    doc[..before + 1] + lines + doc[after..]
  }

  /** The three parts of a document with `lines` in place of a block's content. */
  lemma ReplacedParts<T>(doc: seq<T>, b: nat, a: nat, lines: seq<T>)
    requires b < a <= |doc|
    ensures var r := doc[..b + 1] + lines + doc[a..];
            |r| == (b + 1) + |lines| + (|doc| - a)
            && r[..b + 1] == doc[..b + 1]
            && (forall k :: 0 <= k < |lines| ==> r[b + 1 + k] == lines[k])
            && r[b + 1 + |lines|..] == doc[a..]
  {
    var r := doc[..b + 1] + lines + doc[a..];
    assert r[..b + 1] == doc[..b + 1];
    assert r[b + 1 + |lines|..] == doc[a..];
  }

  /** Leading white space does not change what `strip` leaves. */
  lemma StripIndented(s: string)
    ensures Strip(Indent + s) == Strip(s)
  {
    calc {
      TrimLeft(Indent + s);
      { assert (Indent + s)[1..] == "   " + s; }
      TrimLeft("   " + s);
      { assert ("   " + s)[1..] == "  " + s; }
      TrimLeft("  " + s);
      { assert ("  " + s)[1..] == " " + s; }
      TrimLeft(" " + s);
      { assert (" " + s)[1..] == s; }
      TrimLeft(s);
    }
  }

  /** An inserted line is a fence, or holds a tag, exactly when its help-text piece does. */
  lemma {:induction false} HelpLineClass(help: string, k: nat, tag: string)
    requires k < |HelpLines(help)|
    ensures IsFenceLine(HelpLines(help)[k]) == IsFenceLine(Split(help, '\n')[k])
    ensures IsUsageLine(HelpLines(help)[k], tag) == IsUsageLine(Split(help, '\n')[k], tag)
  {
    StripIndented(Split(help, '\n')[k]);
  }

  /** If the tag's only line lay strictly inside the replaced block and `lines` holds
      it on line `j` only, the document with `lines` in place of the block holds it on
      that line only. */
  lemma ReplacedUsage(doc: seq<string>, tag: string, b: nat, a: nat, u: nat, lines: seq<string>, j: nat)
    requires b < u < a <= |doc| && UniqueUsage(doc, tag, u)
    requires j < |lines| && IsUsageLine(lines[j], tag)
    requires forall k :: 0 <= k < |lines| && k != j ==> !IsUsageLine(lines[k], tag)
    ensures UniqueUsage(doc[..b + 1] + lines + doc[a..], tag, b + 1 + j)
  {
    var d1 := doc[..b + 1] + lines + doc[a..];
    var a1 := b + 1 + |lines|;
    assert d1[b + 1 + j] == lines[j];
    forall i | 0 <= i < |d1| && IsUsageLine(d1[i], tag) ensures i == b + 1 + j {
      if b < i < a1 {
        assert d1[i] == lines[i - b - 1];
      }
    }
  }

  /** If `b` and `a` bound a block of `doc` and none of `lines` is a fence, the
      document with `lines` in place of the block has a block from `b` to the line
      after them. */
  lemma ReplacedBlock(doc: seq<string>, b: nat, a: nat, u: nat, lines: seq<string>, u1: nat)
    requires EnclosingBlock(doc, b, a, u)
    requires b < u1 <= b + |lines|
    requires forall k :: 0 <= k < |lines| ==> !IsFenceLine(lines[k])
    ensures EnclosingBlock(doc[..b + 1] + lines + doc[a..], b, b + 1 + |lines|, u1)
  {
    var d1 := doc[..b + 1] + lines + doc[a..];
    var a1 := b + 1 + |lines|;
    assert d1[b] == doc[b];
    assert d1[a1] == doc[a];
    forall k | b < k < a1 ensures !IsFenceLine(d1[k]) {
      assert d1[k] == lines[k - b - 1];
    }
  }

  /** Putting the `n` lines `lines` in place of a block around the tag's only line,
      where that line is not the opening fence and `lines` holds the tag on line
      `j` only and has no fence, gives a document that resolves the tag to the new
      block. */
  lemma ReplacedResolves(doc: seq<string>, tag: string, b: nat, a: nat, u: nat, lines: seq<string>, j: nat, n: nat)
    requires UniqueUsage(doc, tag, u) && EnclosingBlock(doc, b, a, u) && u != b
    requires j < |lines| && IsUsageLine(lines[j], tag)
    requires forall k :: 0 <= k < |lines| && k != j ==> !IsUsageLine(lines[k], tag)
    requires forall k :: 0 <= k < |lines| ==> !IsFenceLine(lines[k])
    requires n == |lines|
    ensures Locate(doc[..b + 1] + lines + doc[a..], tag) == Resolved(b, b + 1 + n)
  {
    ReplacedBlock(doc, b, a, u, lines, b + 1 + j);
    ReplacedBlockResolves(doc, tag, b, a, u, lines, j);
  }

  /** `ReplacedResolves` once the new block is known to be a block around line
      `b + 1 + j`. */
  lemma ReplacedBlockResolves(doc: seq<string>, tag: string, b: nat, a: nat, u: nat, lines: seq<string>, j: nat)
    requires b < u < a <= |doc| && UniqueUsage(doc, tag, u)
    requires j < |lines| && IsUsageLine(lines[j], tag)
    requires forall k :: 0 <= k < |lines| && k != j ==> !IsUsageLine(lines[k], tag)
    requires EnclosingBlock(doc[..b + 1] + lines + doc[a..], b, b + 1 + |lines|, b + 1 + j)
    ensures Locate(doc[..b + 1] + lines + doc[a..], tag) == Resolved(b, b + 1 + |lines|)
  {
    ReplacedUsage(doc, tag, b, a, u, lines, j);
    BlockResolves(doc[..b + 1] + lines + doc[a..], tag, b, b + 1 + |lines|, b + 1 + j);
  }

  /** Putting the same lines in place of the block just written changes nothing. */
  lemma ReplaceAgain(doc: seq<string>, b: nat, a: nat, lines: seq<string>)
    requires b < a <= |doc|
    ensures var d1 := doc[..b + 1] + lines + doc[a..];
            d1[..b + 1] + lines + d1[b + 1 + |lines|..] == d1
  {
    var d1 := doc[..b + 1] + lines + doc[a..];
    assert d1[..b + 1] == doc[..b + 1];
    assert d1[b + 1 + |lines|..] == doc[a..];
  }

  /** Splicing again at the block just written, with the same help text, changes nothing. */
  lemma {:induction false} SpliceAgain(doc: seq<string>, b: nat, a: nat, help: string)
    requires b < a <= |doc|
    ensures Splice(Splice(doc, b, a, help), b, b + 1 + |Split(help, '\n')|, help) == Splice(doc, b, a, help)
  {
    ReplaceAgain(doc, b, a, HelpLines(help));
  }

  /** Splicing a help text that holds the tag on piece `j` only and has no fence
      into a block around the tag's only line, where that line is not the opening
      fence, gives a document that resolves the tag to the block just written. */
  lemma {:induction false} SpliceResolves(doc: seq<string>, tag: string, b: nat, a: nat, u: nat, help: string, j: nat)
    requires UniqueUsage(doc, tag, u) && EnclosingBlock(doc, b, a, u) && u != b
    requires j < |Split(help, '\n')| && IsUsageLine(Split(help, '\n')[j], tag)
    requires forall k :: 0 <= k < |Split(help, '\n')| && k != j ==> !IsUsageLine(Split(help, '\n')[k], tag)
    requires forall k :: 0 <= k < |Split(help, '\n')| ==> !IsFenceLine(Split(help, '\n')[k])
    ensures Locate(Splice(doc, b, a, help), tag) == Resolved(b, b + 1 + |Split(help, '\n')|)
  {
    HelpLinesClass(help, tag, j);
    ReplacedResolves(doc, tag, b, a, u, HelpLines(help), j, |Split(help, '\n')|);
    LocateSplice(doc, b, a, help, tag);
  }

  /** A help text that holds the tag on piece `j` only and has no fence gives
      inserted lines that hold the tag on line `j` only and have no fence. */
  lemma {:induction false} HelpLinesClass(help: string, tag: string, j: nat)
    requires j < |Split(help, '\n')| && IsUsageLine(Split(help, '\n')[j], tag)
    requires forall k :: 0 <= k < |Split(help, '\n')| && k != j ==> !IsUsageLine(Split(help, '\n')[k], tag)
    requires forall k :: 0 <= k < |Split(help, '\n')| ==> !IsFenceLine(Split(help, '\n')[k])
    ensures |HelpLines(help)| == |Split(help, '\n')|
    ensures j < |HelpLines(help)| && IsUsageLine(HelpLines(help)[j], tag)
    ensures forall k :: 0 <= k < |HelpLines(help)| && k != j ==> !IsUsageLine(HelpLines(help)[k], tag)
    ensures forall k :: 0 <= k < |HelpLines(help)| ==> !IsFenceLine(HelpLines(help)[k])
  {
    var lines := HelpLines(help);
    forall k | 0 <= k < |lines|
      ensures IsFenceLine(lines[k]) == IsFenceLine(Split(help, '\n')[k])
      ensures IsUsageLine(lines[k], tag) == IsUsageLine(Split(help, '\n')[k], tag)
    {
      HelpLineClass(help, k, tag);
    }
  }

  /** Splicing is idempotent: when the help text holds the tag on exactly one of
      its pieces and none of its pieces is a fence, and the opening fence line
      does not itself hold the tag, the changed document resolves the tag to the
      block just written, and splicing the same help text there again changes
      nothing. */
  lemma {:induction false} SpliceIdempotent(doc: seq<string>, tag: string, b: nat, a: nat, help: string, j: nat)
    requires b < a < |doc| && Locate(doc, tag) == Resolved(b, a)
    requires !IsUsageLine(doc[b], tag)
    requires j < |Split(help, '\n')| && IsUsageLine(Split(help, '\n')[j], tag)
    requires forall k :: 0 <= k < |Split(help, '\n')| && k != j ==> !IsUsageLine(Split(help, '\n')[k], tag)
    requires forall k :: 0 <= k < |Split(help, '\n')| ==> !IsFenceLine(Split(help, '\n')[k])
    ensures Locate(Splice(doc, b, a, help), tag) == Resolved(b, b + 1 + |Split(help, '\n')|)
    ensures Splice(Splice(doc, b, a, help), b, b + 1 + |Split(help, '\n')|, help) == Splice(doc, b, a, help)
  {
    var u := ResolvedUsage(doc, tag);
    SpliceResolves(doc, tag, b, a, u, help, j);
    SpliceAgain(doc, b, a, help);
  }

  /** No inserted line holds the tag when no piece of the help text does. */
  lemma {:induction false} HelpLinesFree(help: string, tag: string)
    requires forall k :: 0 <= k < |Split(help, '\n')| ==> !IsUsageLine(Split(help, '\n')[k], tag)
    ensures forall k :: 0 <= k < |HelpLines(help)| ==> !IsUsageLine(HelpLines(help)[k], tag)
  {
    forall k | 0 <= k < |HelpLines(help)| ensures !IsUsageLine(HelpLines(help)[k], tag) {
      HelpLineClass(help, k, tag);
    }
  }

  /** Where a line of the document with `lines` in place of a block comes from. */
  lemma ReplacedAt<T>(doc: seq<T>, b: nat, a: nat, lines: seq<T>, i: nat)
    requires b < a <= |doc| && i < b + 1 + |lines| + (|doc| - a)
    ensures |doc[..b + 1] + lines + doc[a..]| == b + 1 + |lines| + (|doc| - a)
    ensures i <= b ==> (doc[..b + 1] + lines + doc[a..])[i] == doc[i]
    ensures b < i < b + 1 + |lines| ==> (doc[..b + 1] + lines + doc[a..])[i] == lines[i - b - 1]
    ensures b + 1 + |lines| <= i ==> (doc[..b + 1] + lines + doc[a..])[i] == doc[a + (i - b - 1 - |lines|)]
  {
  }

  /** The lines from the end of the replaced block on keep their order, moved by
      the change in length. */
  lemma ReplacedBack<T>(doc: seq<T>, b: nat, a: nat, lines: seq<T>, j: nat)
    requires b < a && a + j < |doc|
    ensures b + 1 + |lines| + j < |doc[..b + 1] + lines + doc[a..]|
    ensures (doc[..b + 1] + lines + doc[a..])[b + 1 + |lines| + j] == doc[a + j]
  {
  }

  /** Replacing the content of a block that lies after the block around the tag's
      only line, with lines that do not hold the tag, leaves the tag resolved to
      the same block. */
  lemma ShiftedBefore(doc: seq<string>, tag: string, b: nat, a: nat, lines: seq<string>, bt: nat, at: nat, u: nat)
    requires b < a <= |doc| && UniqueUsage(doc, tag, u) && EnclosingBlock(doc, bt, at, u) && at <= b
    requires forall k :: 0 <= k < |lines| ==> !IsUsageLine(lines[k], tag)
    ensures Locate(doc[..b + 1] + lines + doc[a..], tag) == Resolved(bt, at)
  {
    var d1 := doc[..b + 1] + lines + doc[a..];
    assert UniqueUsage(d1, tag, u) by {
      forall i | 0 <= i < |d1| ensures IsUsageLine(d1[i], tag) ==> i == u {
        ReplacedAt(doc, b, a, lines, i);
      }
      ReplacedAt(doc, b, a, lines, u);
    }
    assert EnclosingBlock(d1, bt, at, u) by {
      ReplacedAt(doc, b, a, lines, bt);
      ReplacedAt(doc, b, a, lines, at);
      forall k | bt < k < at ensures !IsFenceLine(d1[k]) {
        ReplacedAt(doc, b, a, lines, k);
      }
    }
    BlockResolves(d1, tag, bt, at, u);
  }

  /** A document whose first `n` lines do not hold the tag and whose remaining lines
      are those of `doc` from line `a` on, where the block around the tag's only
      line starts at or after `a`, resolves the tag to that block moved from `a`
      to `n`. */
  lemma ShiftedAfter(doc: seq<string>, d1: seq<string>, tag: string, n: nat, a: nat, bt: nat, at: nat, u: nat)
    requires a <= bt && UniqueUsage(doc, tag, u) && EnclosingBlock(doc, bt, at, u)
    requires |d1| == n + (|doc| - a)
    requires forall i :: 0 <= i < n ==> !IsUsageLine(d1[i], tag)
    requires forall j :: a <= j < |doc| ==> d1[n + (j - a)] == doc[j]
    ensures Locate(d1, tag) == Resolved(n + (bt - a), n + (at - a))
  {
    ShiftedUsage(doc, d1, tag, n, a, u);
    ShiftedBlock(doc, d1, n, a, bt, at, u);
    BlockResolves(d1, tag, n + (bt - a), n + (at - a), n + (u - a));
  }

  /** The tag's only line `u`, at or after `a`, is the only line of `d1` that holds
      the tag, moved from `a` to `n`. */
  lemma ShiftedUsage(doc: seq<string>, d1: seq<string>, tag: string, n: nat, a: nat, u: nat)
    requires a <= u && UniqueUsage(doc, tag, u)
    requires |d1| == n + (|doc| - a)
    requires forall i :: 0 <= i < n ==> !IsUsageLine(d1[i], tag)
    requires forall j :: a <= j < |doc| ==> d1[n + (j - a)] == doc[j]
    ensures UniqueUsage(d1, tag, n + (u - a))
  {
    forall i | 0 <= i < |d1| ensures IsUsageLine(d1[i], tag) ==> i == n + (u - a) {
      if i >= n {
        assert d1[i] == doc[a + (i - n)];
      }
    }
    assert d1[n + (u - a)] == doc[u];
  }

  /** A block of `doc` at or after `a` is a block of `d1`, moved from `a` to `n`. */
  lemma ShiftedBlock(doc: seq<string>, d1: seq<string>, n: nat, a: nat, bt: nat, at: nat, u: nat)
    requires a <= bt && EnclosingBlock(doc, bt, at, u)
    requires |d1| == n + (|doc| - a)
    requires forall j :: a <= j < |doc| ==> d1[n + (j - a)] == doc[j]
    ensures EnclosingBlock(d1, n + (bt - a), n + (at - a), n + (u - a))
  {
    assert d1[n + (bt - a)] == doc[bt] && d1[n + (at - a)] == doc[at];
    forall k | n + (bt - a) < k < n + (at - a) ensures !IsFenceLine(d1[k]) {
      assert d1[k] == doc[a + (k - n)];
    }
  }

  /** Replacing the content of a block that lies after the tag's block, with lines
      that do not hold the tag, leaves the tag resolved to the same block. */
  lemma ReplacedBefore(doc: seq<string>, tag: string, b: nat, a: nat, lines: seq<string>, bt: nat, at: nat)
    requires b < a <= |doc| && Locate(doc, tag) == Resolved(bt, at) && at <= b
    requires forall k :: 0 <= k < |lines| ==> !IsUsageLine(lines[k], tag)
    ensures Locate(doc[..b + 1] + lines + doc[a..], tag) == Resolved(bt, at)
  {
    var u := ResolvedUsage(doc, tag);
    ShiftedBefore(doc, tag, b, a, lines, bt, at, u);
  }

  /** Replacing the content of a block that lies before the tag's block, with lines
      that do not hold the tag, leaves the tag resolved to its block, moved by the
      change in length. */
  lemma ReplacedAfter(doc: seq<string>, tag: string, b: nat, a: nat, lines: seq<string>, bt: nat, at: nat)
    requires b < a <= bt && Locate(doc, tag) == Resolved(bt, at)
    requires forall k :: 0 <= k < |lines| ==> !IsUsageLine(lines[k], tag)
    ensures Locate(doc[..b + 1] + lines + doc[a..], tag)
            == Resolved(b + 1 + |lines| + (bt - a), b + 1 + |lines| + (at - a))
  {
    var u := ResolvedUsage(doc, tag);
    ReplacedBlockAfter(doc, tag, b, a, lines, bt, at, u);
  }

  /** Splicing a help text that does not hold the tag into a block after the tag's
      block leaves the tag's block where it was. */
  lemma {:induction false} SpliceKeepsEarlier(doc: seq<string>, tag: string, b: nat, a: nat, help: string, bt: nat, at: nat)
    requires b < a <= |doc| && Locate(doc, tag) == Resolved(bt, at) && at <= b
    requires var pieces := Split(help, '\n');
             forall k :: 0 <= k < |pieces| ==> !IsUsageLine(pieces[k], tag)
    ensures Locate(Splice(doc, b, a, help), tag) == Resolved(bt, at)
  {
    HelpLinesFree(help, tag);
    ReplacedBefore(doc, tag, b, a, HelpLines(help), bt, at);
  }

  /** Splicing a help text that does not hold the tag into a block before the tag's
      block moves the tag's block by the change in length. */
  lemma {:induction false} SpliceMovesLater(doc: seq<string>, tag: string, b: nat, a: nat, help: string, bt: nat, at: nat)
    requires b < a <= bt && Locate(doc, tag) == Resolved(bt, at)
    requires var pieces := Split(help, '\n');
             forall k :: 0 <= k < |pieces| ==> !IsUsageLine(pieces[k], tag)
    ensures Locate(Splice(doc, b, a, help), tag)
            == Resolved(b + 1 + |HelpLines(help)| + (bt - a), b + 1 + |HelpLines(help)| + (at - a))
  {
    HelpLinesFree(help, tag);
    ReplacedAfter(doc, tag, b, a, HelpLines(help), bt, at);
    LocateSplice(doc, b, a, help, tag);
  }

  /** The tag is looked for in a splice as in the lines it is made of. */
  lemma LocateSplice(doc: seq<string>, b: nat, a: nat, help: string, tag: string)
    requires b < a <= |doc|
    ensures Locate(Splice(doc, b, a, help), tag) == Locate(doc[..b + 1] + HelpLines(help) + doc[a..], tag)
  {
  }

  /** `ReplacedAfter` for the tag's only line `u` and the block around it. */
  lemma ReplacedBlockAfter(doc: seq<string>, tag: string, b: nat, a: nat, lines: seq<string>, bt: nat, at: nat, u: nat)
    requires b < a <= bt && UniqueUsage(doc, tag, u) && EnclosingBlock(doc, bt, at, u)
    requires forall k :: 0 <= k < |lines| ==> !IsUsageLine(lines[k], tag)
    ensures Locate(doc[..b + 1] + lines + doc[a..], tag)
            == Resolved(b + 1 + |lines| + (bt - a), b + 1 + |lines| + (at - a))
  {
    var d1, n := doc[..b + 1] + lines + doc[a..], b + 1 + |lines|;
    forall i | 0 <= i < n ensures !IsUsageLine(d1[i], tag) {
      ReplacedAt(doc, b, a, lines, i);
    }
    forall j | a <= j < |doc| ensures d1[n + (j - a)] == doc[j] {
      ReplacedBack(doc, b, a, lines, j - a);
    }
    ShiftedAfter(doc, d1, tag, n, a, bt, at, u);
  }

  /** Replacing the contents of two blocks, the first before the second, gives the
      same document in either order, once the second block's position is moved by
      the change in length the first replacement makes. */
  lemma TwoReplacements<T>(doc: seq<T>, b1: nat, a1: nat, l1: seq<T>, b2: nat, a2: nat, l2: seq<T>)
    requires b1 < a1 <= b2 < a2 <= |doc|
    ensures var n := b1 + 1 + |l1|;
            var d1 := doc[..b1 + 1] + l1 + doc[a1..];
            d1[..n + (b2 - a1) + 1] + l2 + d1[n + (a2 - a1)..]
            == doc[..b1 + 1] + l1 + doc[a1..b2 + 1] + l2 + doc[a2..]
    ensures var d2 := doc[..b2 + 1] + l2 + doc[a2..];
            d2[..b1 + 1] + l1 + d2[a1..]
            == doc[..b1 + 1] + l1 + doc[a1..b2 + 1] + l2 + doc[a2..]
  {
    var n := b1 + 1 + |l1|;
    var d1 := doc[..b1 + 1] + l1 + doc[a1..];
    assert d1[..n + (b2 - a1) + 1] == doc[..b1 + 1] + l1 + doc[a1..b2 + 1];
    assert d1[n + (a2 - a1)..] == doc[a2..];
    var d2 := doc[..b2 + 1] + l2 + doc[a2..];
    assert d2[..b1 + 1] == doc[..b1 + 1];
    assert d2[a1..] == doc[a1..b2 + 1] + l2 + doc[a2..];
  }
}

/** One run of the tool over a document: for every (command, tag) pair in order,
    the tag's usage block is located in the document as the earlier pairs left it,
    and the block's content is replaced by the command's help text. The first pair
    whose tag cannot be resolved stops the whole run. */
module Session {
  import opened PyStr
  import opened Tags
  import opened Locator
  import opened Splicing

  /** How a run ends: with the changed document lines, stopped at the pair with the
      given index because its tag could not be resolved, or stopped before any pair
      because the command with the given index is blank. */
  datatype Outcome =
    | Done(doc: seq<string>)
    | Aborted(index: nat, reason: Reason)
    | BlankCommand(index: nat)

  /** The help text the tool captures for a command: the command's output, as
      `helpOf` gives it, with white space stripped from both ends. */
  function HelpText(helpOf: string -> string, cmd: string): (h: string)
    ensures StrippedAt(helpOf(cmd), h, |helpOf(cmd)| - |TrimLeft(helpOf(cmd))|)
    ensures h != [] ==> !IsSpace(h[0]) && !IsSpace(h[|h| - 1])
  {
    StripSpec(helpOf(cmd));
    Strip(helpOf(cmd))
  }

  /** Output that is a text neither starting nor ending with white space, with
      only white space around it, is captured as exactly that text. */
  lemma HelpTextOf(helpOf: string -> string, cmd: string, text: string, i: nat)
    requires StrippedAt(helpOf(cmd), text, i)
    requires text != [] ==> !IsSpace(text[0]) && !IsSpace(text[|text| - 1])
    ensures HelpText(helpOf, cmd) == text
  {
    StripUnique(helpOf(cmd), text, i);
  }

  /** The shape of the per-command loop: `step` applied to the pairs in order,
      each to the document the earlier ones left, until one of them does not end
      with `Done`; `step` receives the pair's index. */
  function Fold(doc: seq<string>, programs: seq<Program>, step: (seq<string>, Program, nat) -> Outcome): Outcome {
    if programs == [] then Done(doc)
    else
      match Fold(doc, programs[..|programs| - 1], step)
      case Done(d) => step(d, programs[|programs| - 1], |programs| - 1)
      case stopped => stopped
  }

  /** Pair number `i`, `p`, applied to the document `d` the earlier pairs left: its
      tag is located in `d`, and the block found gets the command's help text. */
  function Step(d: seq<string>, p: Program, helpOf: string -> string, i: nat): (o: Outcome)
    ensures o.Aborted? <==> Locate(d, p.tag).Unresolved?
    ensures o.Aborted? ==> o == Aborted(i, Locate(d, p.tag).reason)
    ensures !o.BlankCommand?
    ensures o.Done? ==>
              var r := Locate(d, p.tag);
              r.Resolved? && o.doc == Splice(d, r.before, r.after, HelpText(helpOf, p.cmd))
  {
    match Locate(d, p.tag)
    case Unresolved(r) => Aborted(i, r)
    case Resolved(b, a) => Done(Splice(d, b, a, HelpText(helpOf, p.cmd)))
  }

  /** The step of the per-command loop for the help texts `helpOf`. */
  function StepOf(helpOf: string -> string): (seq<string>, Program, nat) -> Outcome {
    (d: seq<string>, p: Program, i: nat) => Step(d, p, helpOf, i)
  }

  /** What the per-command loop computes over `programs`. */
  function Run(doc: seq<string>, programs: seq<Program>, helpOf: string -> string): Outcome {
    Fold(doc, programs, StepOf(helpOf))
  }

  /** The whole tool on a document: the pairs derived from the command strings, then
      the per-command loop over them. */
  function Process(doc: seq<string>, runCmds: seq<string>, helpOf: string -> string): Outcome {
    match Derive(runCmds)
    case BlankCommand(i) => Outcome.BlankCommand(i)
    case Derived(programs) => Run(doc, programs, helpOf)
  }

  /** The loop in `main`: the document lines are replaced, command after command,
      by the splice of that command's help text into its usage block. */
  method ProcessDocument(doc: seq<string>, programs: seq<Program>, helpOf: string -> string)
    returns (o: Outcome)
    ensures o == Run(doc, programs, helpOf)
  {
    var lines := doc;
    for i := 0 to |programs|
      invariant Run(doc, programs[..i], helpOf) == Done(lines)
    {
      RunStep(doc, programs, helpOf, i, lines);
      var r := IndexUsageSection(lines, programs[i].tag);
      if r.Unresolved? {
        o := Aborted(i, r.reason);
        assert o == Run(doc, programs, helpOf) by {
          FoldSticks(doc, programs, StepOf(helpOf), i + 1);
        }
        return;
      }
      var help := HelpText(helpOf, programs[i].cmd);
      lines := Splice(lines, r.before, r.after, help);
    }
    assert programs[..|programs|] == programs;
    o := Done(lines);
  }

  /** Pair `i` of a run whose first `i` pairs went through is applied to the
      document they left. */
  lemma RunStep(doc: seq<string>, programs: seq<Program>, helpOf: string -> string, i: nat, lines: seq<string>)
    requires i < |programs| && Run(doc, programs[..i], helpOf) == Done(lines)
    ensures Run(doc, programs[..i + 1], helpOf) == Step(lines, programs[i], helpOf, i)
  {
    assert programs[..i + 1][..i] == programs[..i];
  }

  /** Once a pair has stopped the loop, later pairs change nothing. */
  lemma {:induction false} FoldSticks(doc: seq<string>, programs: seq<Program>, step: (seq<string>, Program, nat) -> Outcome, n: nat)
    requires n <= |programs| && !Fold(doc, programs[..n], step).Done?
    ensures Fold(doc, programs, step) == Fold(doc, programs[..n], step)
    decreases |programs| - n
  {
    if n < |programs| {
      assert programs[..n + 1][..n] == programs[..n];
      FoldSticks(doc, programs, step, n + 1);
    } else {
      assert programs[..n] == programs;
    }
  }

  /** A loop that finishes went through every shorter prefix of the pairs as well. */
  lemma {:induction false} FoldDonePrefix(doc: seq<string>, programs: seq<Program>, step: (seq<string>, Program, nat) -> Outcome, n: nat)
    requires n <= |programs| && Fold(doc, programs, step).Done?
    ensures Fold(doc, programs[..n], step).Done?
    decreases |programs| - n
  {
    if n < |programs| {
      assert programs[..n + 1][..n] == programs[..n];
      FoldDonePrefix(doc, programs, step, n + 1);
    } else {
      assert programs[..n] == programs;
    }
  }

  /** A loop that does not finish stopped at some pair `m`: the pairs before it went
      through, and the loop's outcome is what the step gave for `m`. */
  lemma {:induction false} FoldStoppedAt(doc: seq<string>, programs: seq<Program>, step: (seq<string>, Program, nat) -> Outcome)
    returns (m: nat)
    requires !Fold(doc, programs, step).Done?
    ensures m < |programs| && Fold(doc, programs[..m], step).Done?
    ensures step(Fold(doc, programs[..m], step).doc, programs[m], m) == Fold(doc, programs, step)
    decreases |programs|
  {
    var init := programs[..|programs| - 1];
    if Fold(doc, init, step).Done? {
      m := |programs| - 1;
    } else {
      m := FoldStoppedAt(doc, init, step);
      assert programs[..m] == init[..m];
    }
  }

  /** The run stops at pair `i` with reason `r` exactly when the pairs before it ran
      through and `i`'s tag fails to resolve, with reason `r`, in the document they
      left. */
  lemma RunAborted(doc: seq<string>, programs: seq<Program>, helpOf: string -> string, i: nat, r: Reason)
    ensures Run(doc, programs, helpOf) == Aborted(i, r) <==>
              i < |programs| && Run(doc, programs[..i], helpOf).Done?
              && Locate(Run(doc, programs[..i], helpOf).doc, programs[i].tag) == Unresolved(r)
  {
    var step := StepOf(helpOf);
    if Run(doc, programs, helpOf) == Aborted(i, r) {
      var m := FoldStoppedAt(doc, programs, step);
      RunApply(Fold(doc, programs[..m], step).doc, programs[m], helpOf, m);
    }
    if i < |programs| && Run(doc, programs[..i], helpOf).Done?
       && Locate(Run(doc, programs[..i], helpOf).doc, programs[i].tag) == Unresolved(r) {
      RunApply(Fold(doc, programs[..i], step).doc, programs[i], helpOf, i);
      FoldStopsAt(doc, programs, step, i);
    }
  }

  /** The loop's step for `helpOf`, applied, is `Step`. */
  lemma RunApply(d: seq<string>, p: Program, helpOf: string -> string, i: nat)
    ensures StepOf(helpOf)(d, p, i) == Step(d, p, helpOf, i)
  {
  }

  /** A pair that does not go through, after the pairs before it did, gives the
      loop's outcome. */
  lemma {:induction false} FoldStopsAt(doc: seq<string>, programs: seq<Program>, step: (seq<string>, Program, nat) -> Outcome, i: nat)
    requires i < |programs| && Fold(doc, programs[..i], step).Done?
    requires !step(Fold(doc, programs[..i], step).doc, programs[i], i).Done?
    ensures Fold(doc, programs, step) == step(Fold(doc, programs[..i], step).doc, programs[i], i)
  {
    assert programs[..i + 1][..i] == programs[..i];
    FoldSticks(doc, programs, step, i + 1);
  }

  /** The run never ends with `BlankCommand`; a run that does not finish stopped
      at some pair. */
  lemma RunNeverBlank(doc: seq<string>, programs: seq<Program>, helpOf: string -> string)
    ensures !Run(doc, programs, helpOf).BlankCommand?
  {
    if !Run(doc, programs, helpOf).Done? {
      var m := FoldStoppedAt(doc, programs, StepOf(helpOf));
    }
  }

  /** The run finishes exactly when every pair's tag resolves in the document the
      pairs before it left. */
  lemma RunDone(doc: seq<string>, programs: seq<Program>, helpOf: string -> string)
    ensures Run(doc, programs, helpOf).Done? <==>
              forall i :: 0 <= i < |programs| ==>
                Run(doc, programs[..i], helpOf).Done?
                && Locate(Run(doc, programs[..i], helpOf).doc, programs[i].tag).Resolved?
  {
    var step := StepOf(helpOf);
    if Run(doc, programs, helpOf).Done? {
      forall i | 0 <= i < |programs|
        ensures Run(doc, programs[..i], helpOf).Done?
        ensures Locate(Run(doc, programs[..i], helpOf).doc, programs[i].tag).Resolved?
      {
        DonePrefixResolves(doc, programs, helpOf, i);
      }
    } else {
      var m := FoldStoppedAt(doc, programs, step);
      RunApply(Fold(doc, programs[..m], step).doc, programs[m], helpOf, m);
    }
  }

  /** In a run that finishes, every pair's tag resolves in the document the pairs
      before it left. */
  lemma DonePrefixResolves(doc: seq<string>, programs: seq<Program>, helpOf: string -> string, i: nat)
    requires i < |programs| && Run(doc, programs, helpOf).Done?
    ensures Run(doc, programs[..i], helpOf).Done?
    ensures Locate(Run(doc, programs[..i], helpOf).doc, programs[i].tag).Resolved?
  {
    var step := StepOf(helpOf);
    FoldDonePrefix(doc, programs, step, i);
    FoldDonePrefix(doc, programs, step, i + 1);
    assert programs[..i + 1][..i] == programs[..i];
    RunApply(Fold(doc, programs[..i], step).doc, programs[i], helpOf, i);
  }

  /** The tool stops before running anything exactly at the first blank command, and
      otherwise runs the pairs derived from the commands. */
  lemma {:induction false} ProcessOutcome(doc: seq<string>, runCmds: seq<string>, helpOf: string -> string, i: nat)
    ensures Process(doc, runCmds, helpOf) == Outcome.BlankCommand(i) <==> FirstBlank(runCmds, i)
    ensures (forall j :: 0 <= j < |runCmds| ==> !IsBlank(runCmds[j])) ==>
              Derive(runCmds).Derived?
              && Process(doc, runCmds, helpOf) == Run(doc, Derive(runCmds).programs, helpOf)
  {
    DeriveBlank(runCmds, i);
    DeriveStops(runCmds);
    if Derive(runCmds).Derived? {
      RunNeverBlank(doc, Derive(runCmds).programs, helpOf);
    }
  }

  /** Applying a pair a second time, to the document its first application gave,
      changes nothing, provided the captured help text holds the pair's tag on
      exactly one of its lines and no fence, and the opening fence line does not
      itself hold the tag. */
  lemma StepIdempotent(doc: seq<string>, p: Program, helpOf: string -> string, i: nat, j: nat)
    requires Locate(doc, p.tag).Resolved? && !IsUsageLine(doc[Locate(doc, p.tag).before], p.tag)
    requires var pieces := Split(HelpText(helpOf, p.cmd), '\n');
             j < |pieces| && IsUsageLine(pieces[j], p.tag)
             && (forall k :: 0 <= k < |pieces| && k != j ==> !IsUsageLine(pieces[k], p.tag))
             && (forall k :: 0 <= k < |pieces| ==> !IsFenceLine(pieces[k]))
    ensures Step(doc, p, helpOf, i).Done?
    ensures Step(Step(doc, p, helpOf, i).doc, p, helpOf, i) == Step(doc, p, helpOf, i)
  {
    var b, a := Locate(doc, p.tag).before, Locate(doc, p.tag).after;
    var help := HelpText(helpOf, p.cmd);
    SpliceIdempotent(doc, p.tag, b, a, help, j);
    var d1 := Splice(doc, b, a, help);
    assert Step(doc, p, helpOf, i) == Done(d1);
    assert Step(d1, p, helpOf, i) == Done(Splice(d1, b, b + 1 + |Split(help, '\n')|, help));
  }

  /** Running the tool again, with the same single command, on the document it
      produced changes nothing, under the conditions of `StepIdempotent`. */
  lemma RunIdempotent(doc: seq<string>, p: Program, helpOf: string -> string, j: nat)
    requires Locate(doc, p.tag).Resolved? && !IsUsageLine(doc[Locate(doc, p.tag).before], p.tag)
    requires var pieces := Split(HelpText(helpOf, p.cmd), '\n');
             j < |pieces| && IsUsageLine(pieces[j], p.tag)
             && (forall k :: 0 <= k < |pieces| && k != j ==> !IsUsageLine(pieces[k], p.tag))
             && (forall k :: 0 <= k < |pieces| ==> !IsFenceLine(pieces[k]))
    ensures Run(doc, [p], helpOf).Done?
    ensures Run(Run(doc, [p], helpOf).doc, [p], helpOf) == Run(doc, [p], helpOf)
  {
    StepIdempotent(doc, p, helpOf, 0, j);
    RunSingle(doc, p, helpOf);
    RunSingle(Step(doc, p, helpOf, 0).doc, p, helpOf);
  }

  /** A run of a single pair is that pair's step, with index 0. */
  lemma RunSingle(doc: seq<string>, p: Program, helpOf: string -> string)
    ensures Run(doc, [p], helpOf) == Step(doc, p, helpOf, 0)
  {
    var step := StepOf(helpOf);
    assert [p][..0] == [];
    assert Fold(doc, [p], step) == step(doc, p, 0);
  }

  /** A run of two pairs applies the second to the document the first left, unless
      the first stops the run. */
  lemma RunPair(doc: seq<string>, p: Program, q: Program, helpOf: string -> string)
    ensures Run(doc, [p, q], helpOf) ==
              match Step(doc, p, helpOf, 0)
              case Done(d) => Step(d, q, helpOf, 1)
              case stopped => stopped
  {
    FoldPair(doc, p, q, StepOf(helpOf));
    RunApply(doc, p, helpOf, 0);
    if Step(doc, p, helpOf, 0).Done? {
      RunApply(Step(doc, p, helpOf, 0).doc, q, helpOf, 1);
    }
  }

  /** The loop over two pairs applies the second to the document the first left,
      unless the first stops the loop. */
  lemma {:induction false} FoldPair(doc: seq<string>, p: Program, q: Program, step: (seq<string>, Program, nat) -> Outcome)
    ensures Fold(doc, [p, q], step) ==
              match step(doc, p, 0)
              case Done(d) => step(d, q, 1)
              case stopped => stopped
  {
    assert [p, q][..1] == [p] && [p][..0] == [];
    assert Fold(doc, [p], step) == step(doc, p, 0);
  }

  /** Two commands whose usage blocks are apart, the block of `p` before that of `q`,
      and whose help texts do not hold each other's tag, give the same document in
      either order: each block gets its own command's help text. */
  lemma RunTwo(doc: seq<string>, p: Program, q: Program, helpOf: string -> string, bp: nat, ap: nat, bq: nat, aq: nat)
    requires Locate(doc, p.tag) == Resolved(bp, ap) && Locate(doc, q.tag) == Resolved(bq, aq) && ap <= bq
    requires var pieces := Split(HelpText(helpOf, p.cmd), '\n');
             forall k :: 0 <= k < |pieces| ==> !IsUsageLine(pieces[k], q.tag)
    requires var pieces := Split(HelpText(helpOf, q.cmd), '\n');
             forall k :: 0 <= k < |pieces| ==> !IsUsageLine(pieces[k], p.tag)
    ensures var lp, lq := HelpLines(HelpText(helpOf, p.cmd)), HelpLines(HelpText(helpOf, q.cmd));
            Run(doc, [p, q], helpOf) == Done(doc[..bp + 1] + lp + doc[ap..bq + 1] + lq + doc[aq..])
    ensures Run(doc, [q, p], helpOf) == Run(doc, [p, q], helpOf)
  {
    RunEarlierFirst(doc, p, q, helpOf, bp, ap, bq, aq);
    RunLaterFirst(doc, p, q, helpOf, bp, ap, bq, aq);
  }

  /** Splicing into two blocks that are apart, the second one found at `r` where the
      first splice moved it, gives the document with both blocks replaced. */
  lemma SplicesApart(doc: seq<string>, b1: nat, a1: nat, h1: string, b2: nat, a2: nat, h2: string, r: Resolution)
    requires b1 < a1 <= b2 < a2 <= |doc|
    requires r == Resolved(b1 + 1 + |HelpLines(h1)| + (b2 - a1), b1 + 1 + |HelpLines(h1)| + (a2 - a1))
    ensures Splice(Splice(doc, b1, a1, h1), r.before, r.after, h2)
            == doc[..b1 + 1] + HelpLines(h1) + doc[a1..b2 + 1] + HelpLines(h2) + doc[a2..]
  {
    var n := b1 + 1 + |HelpLines(h1)|;
    var d1 := doc[..b1 + 1] + HelpLines(h1) + doc[a1..];
    assert Splice(doc, b1, a1, h1) == d1;
    assert r.before + 1 == n + (b2 - a1) + 1 && r.after == n + (a2 - a1);
    assert Splice(d1, r.before, r.after, h2) == d1[..n + (b2 - a1) + 1] + HelpLines(h2) + d1[n + (a2 - a1)..];
    TwoReplacements(doc, b1, a1, HelpLines(h1), b2, a2, HelpLines(h2));
  }

  /** Splicing into the later of two blocks that are apart and then into the earlier
      one gives the document with both blocks replaced. */
  lemma SplicesSwapped(doc: seq<string>, b1: nat, a1: nat, h1: string, b2: nat, a2: nat, h2: string)
    requires b1 < a1 <= b2 < a2 <= |doc|
    ensures Splice(Splice(doc, b2, a2, h2), b1, a1, h1)
            == doc[..b1 + 1] + HelpLines(h1) + doc[a1..b2 + 1] + HelpLines(h2) + doc[a2..]
  {
    TwoReplacements(doc, b1, a1, HelpLines(h1), b2, a2, HelpLines(h2));
  }

  /** `RunTwo` with the command of the earlier block first. */
  lemma RunEarlierFirst(doc: seq<string>, p: Program, q: Program, helpOf: string -> string, bp: nat, ap: nat, bq: nat, aq: nat)
    requires Locate(doc, p.tag) == Resolved(bp, ap) && Locate(doc, q.tag) == Resolved(bq, aq) && ap <= bq
    requires var pieces := Split(HelpText(helpOf, p.cmd), '\n');
             forall k :: 0 <= k < |pieces| ==> !IsUsageLine(pieces[k], q.tag)
    ensures var lp, lq := HelpLines(HelpText(helpOf, p.cmd)), HelpLines(HelpText(helpOf, q.cmd));
            Run(doc, [p, q], helpOf) == Done(doc[..bp + 1] + lp + doc[ap..bq + 1] + lq + doc[aq..])
  {
    var hp := HelpText(helpOf, p.cmd);
    var dp := Splice(doc, bp, ap, hp);
    assert Step(doc, p, helpOf, 0) == Done(dp);
    SpliceMovesLater(doc, q.tag, bp, ap, hp, bq, aq);
    RunPairThrough(doc, p, q, helpOf, dp);
    SplicesApart(doc, bp, ap, hp, bq, aq, HelpText(helpOf, q.cmd), Locate(dp, q.tag));
  }

  /** Two commands run one after the other: when the first gives `d1` and the usage
      block of the second is found in `d1`, the run gives the splice into `d1`. */
  lemma RunPairThrough(doc: seq<string>, p: Program, q: Program, helpOf: string -> string, d1: seq<string>)
    requires Step(doc, p, helpOf, 0) == Done(d1) && Locate(d1, q.tag).Resolved?
    ensures var r := Locate(d1, q.tag);
            Run(doc, [p, q], helpOf) == Done(Splice(d1, r.before, r.after, HelpText(helpOf, q.cmd)))
  {
    RunPair(doc, p, q, helpOf);
  }

  /** `RunTwo` with the command of the later block first. */
  lemma RunLaterFirst(doc: seq<string>, p: Program, q: Program, helpOf: string -> string, bp: nat, ap: nat, bq: nat, aq: nat)
    requires Locate(doc, p.tag) == Resolved(bp, ap) && Locate(doc, q.tag) == Resolved(bq, aq) && ap <= bq
    requires var pieces := Split(HelpText(helpOf, q.cmd), '\n');
             forall k :: 0 <= k < |pieces| ==> !IsUsageLine(pieces[k], p.tag)
    ensures var lp, lq := HelpLines(HelpText(helpOf, p.cmd)), HelpLines(HelpText(helpOf, q.cmd));
            Run(doc, [q, p], helpOf) == Done(doc[..bp + 1] + lp + doc[ap..bq + 1] + lq + doc[aq..])
  {
    var hq := HelpText(helpOf, q.cmd);
    var dq := Splice(doc, bq, aq, hq);
    assert Step(doc, q, helpOf, 0) == Done(dq);
    SpliceKeepsEarlier(doc, p.tag, bq, aq, hq, bp, ap);
    RunPairThrough(doc, q, p, helpOf, dq);
    SplicesSwapped(doc, bp, ap, HelpText(helpOf, p.cmd), bq, aq, hq);
  }
}

/** Turning the command strings given on the command line into (command, usage tag)
    pairs: each non-empty command is paired with "usage: " followed by the stem of
    the path that is its first word. */
module Tags {
  import opened PyStr

  /** A command to run and the tag that marks its usage block in the document. */
  datatype Program = Program(cmd: string, tag: string)

  /** The outcome of tag derivation: the pairs in command order, or the index of the
      first command that is non-empty but all white space, on which
      `cmd.split()[0]` raises an `IndexError` and the program stops. */
  datatype Derivation = Derived(programs: seq<Program>) | BlankCommand(index: nat)

  /** A path component `pathlib.PurePosixPath` drops: an empty one (from a doubled,
      leading or trailing `/`) or `.`. */
  predicate Dropped(part: string) {
    part == "" || part == "."
  }

  /** The path components `pathlib.PurePosixPath` keeps, in order. */
  function Components(parts: seq<string>): (r: seq<string>)
    ensures |r| <= |parts|
    ensures forall k :: 0 <= k < |r| ==> !Dropped(r[k])
  {
    if parts == [] then []
    else (if Dropped(parts[0]) then [] else [parts[0]]) + Components(parts[1..])
  }

  /** Components of a path made of two pieces are those of each piece. */
  lemma {:induction false} ComponentsAppend(a: seq<string>, b: seq<string>)
    ensures Components(a + b) == Components(a) + Components(b)
    decreases |a|
  {
    if a == [] {
      assert a + b == b;
    } else {
      var head := if Dropped(a[0]) then [] else [a[0]];
      calc {
        Components(a + b);
        { assert (a + b)[0] == a[0] && (a + b)[1..] == a[1..] + b; }
        head + Components(a[1..] + b);
        { ComponentsAppend(a[1..], b); }
        head + (Components(a[1..]) + Components(b));
        (head + Components(a[1..])) + Components(b);
        Components(a) + Components(b);
      }
    }
  }

  /** Every component is one of the pieces, and every piece that is kept is a
      component. */
  lemma {:induction false} ComponentsMembers(parts: seq<string>)
    ensures forall k :: 0 <= k < |Components(parts)| ==> Components(parts)[k] in parts
    ensures forall k :: 0 <= k < |parts| && !Dropped(parts[k]) ==> parts[k] in Components(parts)
    decreases |parts|
  {
    if parts != [] {
      var tail := parts[1..];
      ComponentsMembers(tail);
      assert parts == [parts[0]] + tail;
    }
  }

  /** A path has no components exactly when every piece is dropped, and otherwise
      its last component is the last piece that is kept. */
  lemma {:induction false} ComponentsLast(parts: seq<string>)
    ensures Components(parts) == [] <==> forall k :: 0 <= k < |parts| ==> Dropped(parts[k])
    ensures Components(parts) != [] ==>
              exists j :: 0 <= j < |parts| && parts[j] == Components(parts)[|Components(parts)| - 1]
                          && forall k :: j < k < |parts| ==> Dropped(parts[k])
    decreases |parts|
  {
    if parts != [] {
      var tail := parts[1..];
      ComponentsLast(tail);
      var r := Components(parts);
      assert forall k :: 0 <= k < |tail| ==> tail[k] == parts[k + 1];
      if Components(tail) != [] {
        var j :| 0 <= j < |tail| && tail[j] == Components(tail)[|Components(tail)| - 1]
                 && forall k :: j < k < |tail| ==> Dropped(tail[k]);
        assert parts[j + 1] == r[|r| - 1];
      } else if !Dropped(parts[0]) {
        assert parts[0] == r[|r| - 1];
      }
    }
  }

  /** `Path(p).name`: the last component of a POSIX path, "" when there is none. */
  function PathName(p: string): (name: string)
    ensures '/' !in name
    ensures name == "" || !Dropped(name)
    ensures name == "" <==> forall k :: 0 <= k < |Split(p, '/')| ==> Dropped(Split(p, '/')[k])
    ensures name != "" ==>
              exists j :: 0 <= j < |Split(p, '/')| && Split(p, '/')[j] == name
                          && forall k :: j < k < |Split(p, '/')| ==> Dropped(Split(p, '/')[k])
    ensures '/' !in p && !Dropped(p) ==> name == p
  {
    var parts := Split(p, '/');
    var cs := Components(parts);
    LastComponent(p, parts, cs);
    if cs == [] then "" else cs[|cs| - 1]
  }

  /** What `PathName` needs about the components of `p`: there are none exactly
      when every piece is dropped, the last one is a kept, slash-free piece with
      only dropped pieces after it, and a plain name is the only component. */
  lemma {:induction false} LastComponent(p: string, parts: seq<string>, cs: seq<string>)
    requires parts == Split(p, '/') && cs == Components(parts)
    ensures cs == [] <==> forall k :: 0 <= k < |parts| ==> Dropped(parts[k])
    ensures cs != [] ==>
              '/' !in cs[|cs| - 1] && !Dropped(cs[|cs| - 1])
              && exists j :: 0 <= j < |parts| && parts[j] == cs[|cs| - 1]
                             && forall k :: j < k < |parts| ==> Dropped(parts[k])
    ensures '/' !in p && !Dropped(p) ==> cs == [p]
  {
    ComponentsLast(parts);
    if cs != [] {
      var j :| 0 <= j < |parts| && parts[j] == cs[|cs| - 1] && forall k :: j < k < |parts| ==> Dropped(parts[k]);
      assert '/' !in parts[j];
    }
    if '/' !in p {
      SplitJoin([p], '/');
      assert parts == [p];
      assert Components([p]) == (if Dropped(p) then [] else [p]) + Components([]);
    }
  }

  /** The name of a path that ends in `/` and a file name is that file name. */
  lemma PathNameAfterSlash(dir: string, file: string)
    requires '/' !in file && !Dropped(file)
    ensures PathName(dir + "/" + file) == file
  {
    SplitSnoc(dir, file, '/');
    ComponentsAppend(Split(dir, '/'), [file]);
    assert Components([file]) == [file] + Components([]);
  }

  /** The index of the last `c` in `s`, or -1 as Python's `str.rfind` returns. */
  function LastIndexOf(s: string, c: char): (r: int)
    ensures -1 <= r < |s|
    ensures r >= 0 ==> s[r] == c
    ensures forall k :: r < k < |s| ==> s[k] != c
  {
    if s == [] then -1
    else if s[|s| - 1] == c then |s| - 1
    else LastIndexOf(s[..|s| - 1], c)
  }

  /** `Path(..).stem` of a file name: the name without its last suffix, where a
      suffix starts at the last dot and that dot is neither the first nor the
      last character of the name. */
  function Stem(name: string): (r: string)
    ensures |r| <= |name| && r == name[..|r|]
    ensures r != name ==> 0 < |r| < |name| - 1 && name[|r|] == '.'
                          && forall k :: |r| < k < |name| ==> name[k] != '.'
    ensures '.' !in name ==> r == name
    ensures r == name <==> LastIndexOf(name, '.') <= 0 || LastIndexOf(name, '.') == |name| - 1
  {
    var i := LastIndexOf(name, '.');
    if 0 < i < |name| - 1 then name[..i] else name
  }

  /** A name followed by a dot and a suffix that has no dot has that name as stem. */
  lemma StemOfDotted(base: string, ext: string)
    requires base != [] && ext != [] && '.' !in ext
    ensures Stem(base + "." + ext) == base
  {
    var name := base + "." + ext;
    assert name[|base|] == '.';
    assert forall k :: |base| < k < |name| ==> name[k] == ext[k - |base| - 1];
    assert LastIndexOf(name, '.') == |base|;
    assert name[..|base|] == base;
  }

  /** The usage tag of a command (`"usage: " + Path(cmd.split()[0]).stem`), or `None`
      when the command has no first word. */
  function UsageTag(cmd: string): (r: Option<string>)
    ensures r.None? <==> forall k :: 0 <= k < |cmd| ==> IsSpace(cmd[k])
    ensures r.Some? ==> StartsWith(r.value, "usage: ") && '/' !in r.value[|"usage: "|..]
  {
    match FirstWord(cmd)
    case None => None
    case Some(w) => Some("usage: " + Stem(PathName(w)))
  }

  /** A command whose first word is a path to a file with a suffix is tagged with
      the file name without that suffix, whatever directory the path names and
      whatever arguments follow it. */
  lemma TagOfPath(dir: string, base: string, ext: string, args: string)
    requires forall k :: 0 <= k < |dir| ==> !IsSpace(dir[k])
    requires base != [] && '/' !in base && forall k :: 0 <= k < |base| ==> !IsSpace(base[k])
    requires ext != [] && '.' !in ext && '/' !in ext && forall k :: 0 <= k < |ext| ==> !IsSpace(ext[k])
    requires args == [] || IsSpace(args[0])
    ensures UsageTag(dir + "/" + base + "." + ext + args) == Some("usage: " + base)
  {
    var file := base + "." + ext;
    var w := dir + "/" + file;
    assert w + args == dir + "/" + base + "." + ext + args;
    forall k | 0 <= k < |w| ensures !IsSpace(w[k]) {
      if k < |dir| { assert w[k] == dir[k]; }
      else if k == |dir| { assert w[k] == '/'; }
      else if k < |dir| + 1 + |base| { assert w[k] == base[k - |dir| - 1]; }
      else if k == |dir| + 1 + |base| { assert w[k] == '.'; }
      else { assert w[k] == ext[k - |dir| - |base| - 2]; }
    }
    FirstWordOf(w, args);
    assert '/' !in file by {
      forall k | 0 <= k < |file| ensures file[k] != '/' {
        if k < |base| { assert file[k] == base[k]; }
        else if k > |base| { assert file[k] == ext[k - |base| - 1]; }
      }
    }
    assert !Dropped(file) by { assert |file| >= 3; }
    PathNameAfterSlash(dir, file);
    StemOfDotted(base, ext);
  }

  /** A command the derivation loop does not skip but cannot split: it is not empty
      and has no first word, that is, it is all white space. */
  predicate IsBlank(cmd: string) {
    cmd != [] && FirstWord(cmd).None?
  }

  /** The non-empty commands, in order. */
  function NonEmpty(cmds: seq<string>): (r: seq<string>)
    ensures |r| <= |cmds|
    ensures forall k :: 0 <= k < |r| ==> r[k] != [] && r[k] in cmds
    ensures forall k :: 0 <= k < |cmds| && cmds[k] != [] ==> cmds[k] in r
  {
    if cmds == [] then []
    else
      var init := cmds[..|cmds| - 1];
      assert cmds == init + [cmds[|cmds| - 1]];
      NonEmpty(init) + (if cmds[|cmds| - 1] == [] then [] else [cmds[|cmds| - 1]])
  }

  /** The non-empty commands of two runs of commands are those of each run. */
  lemma {:induction false} NonEmptyAppend(a: seq<string>, b: seq<string>)
    ensures NonEmpty(a + b) == NonEmpty(a) + NonEmpty(b)
    decreases |b|
  {
    if b == [] {
      assert a + b == a;
    } else {
      var init, last := b[..|b| - 1], b[|b| - 1];
      var tail := if last == [] then [] else [last];
      calc {
        NonEmpty(a + b);
        { assert (a + b)[..|a + b| - 1] == a + init && (a + b)[|a + b| - 1] == last; }
        NonEmpty(a + init) + tail;
        { NonEmptyAppend(a, init); }
        (NonEmpty(a) + NonEmpty(init)) + tail;
        NonEmpty(a) + (NonEmpty(init) + tail);
        NonEmpty(a) + NonEmpty(b);
      }
    }
  }

  /** What the derivation loop computes over `cmds`, one command after the other. */
  function Derive(cmds: seq<string>): Derivation {
    if cmds == [] then Derived([])
    else
      var last := cmds[|cmds| - 1];
      match Derive(cmds[..|cmds| - 1])
      case BlankCommand(i) => BlankCommand(i)
      case Derived(ps) =>
        if |last| == 0 then Derived(ps)
        else match UsageTag(last)
          case None => BlankCommand(|cmds| - 1)
          case Some(tag) => Derived(ps + [Program(last, tag)])
  }

  /** The loop over the command-line commands: each non-empty command is paired with
      its usage tag, in input order. */
  method DeriveTags(runCmds: seq<string>) returns (d: Derivation)
    ensures d == Derive(runCmds)
  {
    var programs: seq<Program> := [];
    var i := 0;
    while i < |runCmds|
      invariant 0 <= i <= |runCmds|
      invariant Derive(runCmds[..i]) == Derived(programs)
    {
      var cmd := runCmds[i];
      assert runCmds[..i + 1][..i] == runCmds[..i];
      if 0 < |cmd| {
        var tag := UsageTag(cmd);
        if tag.None? {
          d := BlankCommand(i);
          assert d == Derive(runCmds) by { DeriveBlankSticks(runCmds, i + 1); }
          return;
        }
        programs := programs + [Program(cmd, tag.value)];
      }
      i := i + 1;
    }
    assert runCmds[..i] == runCmds;
    d := Derived(programs);
  }

  /** Once a blank command has stopped the derivation, later commands change nothing. */
  lemma {:induction false} DeriveBlankSticks(cmds: seq<string>, n: nat)
    requires n <= |cmds| && Derive(cmds[..n]).BlankCommand?
    ensures Derive(cmds) == Derive(cmds[..n])
    decreases |cmds| - n
  {
    if n < |cmds| {
      assert cmds[..n + 1][..n] == cmds[..n];
      DeriveBlankSticks(cmds, n + 1);
    } else {
      assert cmds[..n] == cmds;
    }
  }

  /** `cmds[i]` is the first blank command of `cmds`. */
  predicate FirstBlank(cmds: seq<string>, i: nat) {
    i < |cmds| && IsBlank(cmds[i]) && forall j :: 0 <= j < i ==> !IsBlank(cmds[j])
  }

  /** Derivation succeeds exactly when no command is blank, and otherwise it names
      the first blank command. */
  lemma {:induction false} DeriveStops(cmds: seq<string>)
    ensures Derive(cmds).Derived? <==> forall j :: 0 <= j < |cmds| ==> !IsBlank(cmds[j])
    ensures Derive(cmds).BlankCommand? ==> FirstBlank(cmds, Derive(cmds).index)
    decreases |cmds|
  {
    if cmds == [] {
      assert Derive(cmds) == Derived([]);
    } else {
      var init := cmds[..|cmds| - 1];
      DeriveStops(init);
      if Derive(init).BlankCommand? {
        StopsAfterBlank(cmds);
      } else {
        assert forall j :: 0 <= j < |init| ==> init[j] == cmds[j];
        StopsAfterDerived(cmds);
      }
    }
  }

  /** The step of `DeriveStops` where the commands before the last one already
      stopped at a blank command. */
  lemma {:induction false} StopsAfterBlank(cmds: seq<string>)
    requires cmds != [] && Derive(cmds[..|cmds| - 1]).BlankCommand?
    requires FirstBlank(cmds[..|cmds| - 1], Derive(cmds[..|cmds| - 1]).index)
    ensures Derive(cmds) == Derive(cmds[..|cmds| - 1])
    ensures FirstBlank(cmds, Derive(cmds).index)
    ensures !forall j :: 0 <= j < |cmds| ==> !IsBlank(cmds[j])
  {
    var init := cmds[..|cmds| - 1];
    var i := Derive(init).index;
    assert cmds[i] == init[i];
    forall j | 0 <= j < i ensures !IsBlank(cmds[j]) {
      assert cmds[j] == init[j];
    }
  }

  /** The step of `DeriveStops` where the commands before the last one went through
      without a blank command. */
  lemma {:induction false} StopsAfterDerived(cmds: seq<string>)
    requires cmds != [] && Derive(cmds[..|cmds| - 1]).Derived?
    requires forall j :: 0 <= j < |cmds| - 1 ==> !IsBlank(cmds[j])
    ensures Derive(cmds).Derived? <==> forall j :: 0 <= j < |cmds| ==> !IsBlank(cmds[j])
    ensures Derive(cmds).BlankCommand? ==> FirstBlank(cmds, Derive(cmds).index)
  {
    var last := cmds[|cmds| - 1];
    if |last| == 0 || UsageTag(last).Some? {
      assert !IsBlank(last);
      assert Derive(cmds).Derived?;
    } else {
      assert IsBlank(last);
      assert Derive(cmds) == BlankCommand(|cmds| - 1);
    }
  }

  /** Derivation stops at command `i` exactly when `i` is the first blank command. */
  lemma {:induction false} DeriveBlank(cmds: seq<string>, i: nat)
    ensures Derive(cmds) == BlankCommand(i) <==> FirstBlank(cmds, i)
  {
    DeriveStops(cmds);
    if FirstBlank(cmds, i) && Derive(cmds).BlankCommand? {
      var i0 := Derive(cmds).index;
      assert !(i0 < i) && !(i < i0);
    }
  }

  /** `ps` pairs each of `cmds`, in order, with its usage tag. */
  predicate Tagged(ps: seq<Program>, cmds: seq<string>) {
    |ps| == |cmds|
    && forall k :: 0 <= k < |cmds| ==> ps[k].cmd == cmds[k] && UsageTag(cmds[k]) == Some(ps[k].tag)
  }

  /** A command and its tag appended to both sides keep them paired. */
  lemma TaggedSnoc(ps: seq<Program>, cmds: seq<string>, c: string, t: string)
    requires Tagged(ps, cmds) && UsageTag(c) == Some(t)
    ensures Tagged(ps + [Program(c, t)], cmds + [c])
  {
    var ps', cmds' := ps + [Program(c, t)], cmds + [c];
    forall k | 0 <= k < |cmds'| ensures ps'[k].cmd == cmds'[k] && UsageTag(cmds'[k]) == Some(ps'[k].tag) {
      if k < |cmds| {
        assert ps'[k] == ps[k] && cmds'[k] == cmds[k];
      } else {
        assert ps'[k] == Program(c, t) && cmds'[k] == c;
      }
    }
  }

  /** Without blank commands, derivation yields one pair per non-empty command, in
      input order, each tagged with that command's usage tag. */
  lemma {:induction false} DeriveAll(cmds: seq<string>)
    requires forall j :: 0 <= j < |cmds| ==> !IsBlank(cmds[j])
    ensures Derive(cmds).Derived? && Tagged(Derive(cmds).programs, NonEmpty(cmds))
    decreases |cmds|
  {
    if cmds != [] {
      var init, last := cmds[..|cmds| - 1], cmds[|cmds| - 1];
      assert forall j :: 0 <= j < |init| ==> init[j] == cmds[j];
      DeriveAll(init);
      var ps := Derive(init).programs;
      InitLast(cmds);
      if last == [] {
        DeriveSkip(init, ps);
        assert NonEmpty(cmds) == NonEmpty(init);
      } else {
        assert FirstWord(last).Some?;
        DeriveSnoc(init, ps, last, UsageTag(last).value);
        TaggedSnoc(ps, NonEmpty(init), last, UsageTag(last).value);
        assert NonEmpty(cmds) == NonEmpty(init) + [last];
      }
    }
  }

  /** Two commands that each have a tag give two pairs, in order. */
  lemma DerivePair(c1: string, c2: string, t1: string, t2: string)
    requires c1 != [] && UsageTag(c1) == Some(t1)
    requires c2 != [] && UsageTag(c2) == Some(t2)
    ensures Derive([c1, c2]) == Derived([Program(c1, t1), Program(c2, t2)])
  {
    DeriveOne(c1, t1);
    DeriveSnoc([c1], [Program(c1, t1)], c2, t2);
    PairDisplay(c1, c2);
    PairDisplay(Program(c1, t1), Program(c2, t2));
  }

  /** Two one-element sequences concatenate to the two-element one. */
  lemma PairDisplay<T>(x: T, y: T)
    ensures [x] + [y] == [x, y]
  {
  }

  /** A command that has a tag gives one pair. */
  lemma DeriveOne(c: string, t: string)
    requires c != [] && UsageTag(c) == Some(t)
    ensures Derive([c]) == Derived([Program(c, t)])
  {
    DeriveSnoc([], [], c, t);
    assert [] + [c] == [c];
    assert [] + [Program(c, t)] == [Program(c, t)];
  }

  /** An empty command after commands that derived `ps` is skipped. */
  lemma {:induction false} DeriveSkip(cmds: seq<string>, ps: seq<Program>)
    requires Derive(cmds) == Derived(ps)
    ensures Derive(cmds + [[]]) == Derived(ps)
  {
    assert (cmds + [[]])[..|cmds|] == cmds;
  }

  /** A tagged command after commands that derived `ps` adds its pair at the end. */
  lemma {:induction false} DeriveSnoc(cmds: seq<string>, ps: seq<Program>, c: string, t: string)
    requires Derive(cmds) == Derived(ps)
    requires c != [] && UsageTag(c) == Some(t)
    ensures Derive(cmds + [c]) == Derived(ps + [Program(c, t)])
  {
    var cmds' := cmds + [c];
    assert cmds'[..|cmds'| - 1] == cmds && cmds'[|cmds'| - 1] == c;
  }
}

/** Worked cases: the tool's own test expectations and an end-to-end run, as the
    model computes them. */
module Examples {
  import opened PyStr
  import opened Tags
  import opened Locator
  import opened Splicing
  import opened Session

  /** A string that neither starts nor ends with white space is its own `strip()`. */
  lemma StripUnpadded(s: string)
    requires s == [] || (!IsSpace(s[0]) && !IsSpace(s[|s| - 1]))
    ensures Strip(s) == s
  {
  }

  /** A string without an upper-case letter is its own `lower()`. */
  lemma {:induction false} LowerOfLower(s: string)
    requires forall k :: 0 <= k < |s| ==> !IsUpper(s[k])
    ensures Lower(s) == s
  {
  }

  /** A string never contains a longer one. */
  lemma {:induction false} ShorterNotContained(s: string, t: string)
    requires |s| < |t|
    ensures !Contains(s, t)
    decreases |s|
  {
    if |s| > 0 {
      ShorterNotContained(s[1..], t);
    }
  }

  /** A string of the same length as `t` contains `t` only by being `t`. */
  lemma {:induction false} SameLengthContained(s: string, t: string)
    requires |s| == |t|
    ensures Contains(s, t) <==> s == t
  {
    if |s| > 0 {
      ShorterNotContained(s[1..], t);
    }
  }

  /** A single word with neither a slash nor a dot is its own tag's name part. */
  lemma TagOfWord(w: string)
    requires w != [] && '/' !in w && '.' !in w
    requires forall k :: 0 <= k < |w| ==> !IsSpace(w[k])
    ensures UsageTag(w) == Some("usage: " + w)
  {
    assert w != "." by { assert w[0] in w; }
    assert TrimLeft(w) == w;
    assert Word(w) == w;
    assert FirstWord(w) == Some(w);
    assert Stem(PathName(w)) == w;
  }

  /** A trailing `/.` is dropped: the name of `a/.` is `a`, not `.`. */
  lemma TrailingDotName()
    ensures PathName("a/.") == "a"
  {
    SplitSnoc("a", ".", '/');
    SplitJoin(["a"], '/');
    assert "a" + ['/'] + "." == "a/.";
    ComponentsAppend(["a"], ["."]);
    assert ["a"] + ["."] == ["a", "."];
  }

  /** The test document with `usageLine` inside its only fenced block. */
  function TestDoc(usageLine: string): seq<string> {
    ["# Testing #", "", "```", usageLine, "```", ""]
  }

  /** Two commands that are plain names, such as `cmd1` and `cmd2`, give two pairs,
      in order, each tagged with its own name. */
  lemma DeriveTwoCommands(c1: string, c2: string)
    requires c1 != [] && '/' !in c1 && '.' !in c1
    requires forall k :: 0 <= k < |c1| ==> !IsSpace(c1[k])
    requires c2 != [] && '/' !in c2 && '.' !in c2
    requires forall k :: 0 <= k < |c2| ==> !IsSpace(c2[k])
    ensures Derive([c1, c2]) ==
              Derived([Program(c1, "usage: " + c1), Program(c2, "usage: " + c2)])
  {
    TagOfWord(c1);
    TagOfWord(c2);
    DerivePair(c1, c2, "usage: " + c1, "usage: " + c2);
  }

  /** A line shorter than the tag never holds it. */
  lemma ShortLineNotUsage(line: string, tag: string)
    requires |line| < |tag|
    ensures !IsUsageLine(line, tag)
  {
    StripSpec(line);
    ShorterNotContained(Lower(Strip(line)), tag);
  }

  /** A title line that starts with `#` holds no tag of its own length that does
      not. */
  lemma TitleNotUsage(title: string, tag: string)
    requires |title| == |tag| && title != [] && title[0] == '#' && tag[0] != '#'
    requires !IsSpace(title[|title| - 1])
    ensures !IsUsageLine(title, tag)
  {
    StripUnpadded(title);
    SameLengthContained(Lower(title), tag);
    assert Lower(title)[0] == '#';
  }

  /** A line that is exactly the fence marker is a fence line. */
  lemma MarkerIsFence(line: string)
    requires line == Fence
    ensures IsFenceLine(line)
  {
    StripUnpadded(line);
  }

  /** The lines of the test document other than the usage line are not usage lines
      for a tag of eleven characters that does not start with `#`. */
  lemma TestDocFrame(usageLine: string, tag: string)
    requires |tag| == 11 && tag[0] != '#'
    ensures forall i :: 0 <= i < 6 && i != 3 ==> !IsUsageLine(TestDoc(usageLine)[i], tag)
  {
    var doc := TestDoc(usageLine);
    forall i | 0 <= i < 6 && i != 3
      ensures !IsUsageLine(doc[i], tag)
    {
      if i == 0 {
        TitleNotUsage(doc[0], tag);
      } else {
        assert |doc[i]| <= 3;
        ShortLineNotUsage(doc[i], tag);
      }
    }
  }

  /** Lines 2 and 4 of the test document are fences. */
  lemma TestDocFences(usageLine: string)
    ensures IsFenceLine(TestDoc(usageLine)[2]) && IsFenceLine(TestDoc(usageLine)[4])
  {
    MarkerIsFence(TestDoc(usageLine)[2]);
    MarkerIsFence(TestDoc(usageLine)[4]);
  }

  /** A test-document usage line that holds `tag`, up to case, with no other text
      resolves `tag` to the block between lines 2 and 4. */
  lemma {:induction false} TestDocResolves(usageLine: string, tag: string)
    requires |tag| == 11 && tag[0] != '#' && tag[0] != '`'
    requires |usageLine| == 11 && !IsSpace(usageLine[0]) && !IsSpace(usageLine[10])
    requires Lower(usageLine) == tag
    ensures Locate(TestDoc(usageLine), tag) == Resolved(2, 4)
  {
    var doc := TestDoc(usageLine);
    TestDocFrame(usageLine, tag);
    TestDocFences(usageLine);
    StripUnpadded(usageLine);
    assert StartsWith(Lower(usageLine), tag);
    assert usageLine[0] != '`' by {
      assert Lower(usageLine)[0] == LowerChar(usageLine[0]);
    }
    assert UniqueUsage(doc, tag, 3);
    assert EnclosingBlock(doc, 2, 4, 3);
    BlockResolves(doc, tag, 2, 4, 3);
  }

  /** A lower-case tag is found on a line written in lower case. */
  lemma LowerCaseTagResolves()
    ensures Locate(TestDoc("usage: cmd1"), "usage: cmd1") == Resolved(2, 4)
  {
    LowerLineResolves("usage: cmd1");
  }

  /** An unpadded test-document usage line of eleven characters without capitals
      resolves itself as a tag. */
  lemma LowerLineResolves(line: string)
    requires |line| == 11 && line[0] != '#' && line[0] != '`'
    requires !IsSpace(line[0]) && !IsSpace(line[10])
    requires forall k :: 0 <= k < |line| ==> !IsUpper(line[k])
    ensures Locate(TestDoc(line), line) == Resolved(2, 4)
  {
    LowerOfLower(line);
    TestDocResolves(line, line);
  }

  /** A lower-case tag is found on a line written with capitals, since the line is
      lower-cased before the test. */
  lemma CapitalisedLineResolves()
    ensures Locate(TestDoc("Usage: cmd2"), "usage: cmd2") == Resolved(2, 4)
  {
    var rest := "sage: cmd2";
    assert "Usage: cmd2" == ['U'] + rest;
    assert "usage: cmd2" == ['u'] + rest;
    CapitalisedResolves(rest);
  }

  /** A usage line that starts with a capital `U` resolves the tag that starts with
      a small one. */
  lemma CapitalisedResolves(rest: string)
    requires |rest| == 10 && !IsSpace(rest[9])
    requires forall k :: 0 <= k < |rest| ==> !IsUpper(rest[k])
    ensures Locate(TestDoc(['U'] + rest), ['u'] + rest) == Resolved(2, 4)
  {
    LowerCapitalised(rest);
    TestDocResolves(['U'] + rest, ['u'] + rest);
  }

  /** Lower-casing a capital `U` in front of a lower-case rest gives a small `u`. */
  lemma {:induction false} LowerCapitalised(rest: string)
    requires forall k :: 0 <= k < |rest| ==> !IsUpper(rest[k])
    ensures Lower(['U'] + rest) == ['u'] + rest
  {
    LowerOfLower(rest);
    assert (['U'] + rest)[1..] == rest;
  }

  /** A tag derived from a command with a capital letter is never found, whatever
      the line's case. */
  lemma CapitalisedTagNotFound()
    ensures Locate(TestDoc("usage: Cmd3"), "usage: Cmd3") == Unresolved(TagNotFound)
    ensures Locate(TestDoc("USAGE: Cmd4"), "usage: Cmd4") == Unresolved(TagNotFound)
  {
    UpperCaseTagNotFound(TestDoc("usage: Cmd3"), "usage: Cmd3", 7);
    UpperCaseTagNotFound(TestDoc("USAGE: Cmd4"), "usage: Cmd4", 7);
  }

  /** `strip()` of a string that is unpadded apart from one trailing newline drops
      just that newline. */
  lemma StripTrailingNewline(s: string)
    requires s != [] && !IsSpace(s[0]) && !IsSpace(s[|s| - 1])
    ensures Strip(s + "\n") == s
  {
    assert (s + "\n")[0] == s[0];
    assert TrimLeft(s + "\n") == s + "\n";
    assert (s + "\n")[..|s|] == s;
    assert TrimRight(s + "\n") == TrimRight(s);
  }

  /** A text of two lines with a blank line between them splits into three pieces,
      the middle one empty. */
  lemma {:induction false} SplitThree(x: string, z: string)
    requires '\n' !in x && '\n' !in z
    ensures Split(x + "\n\n" + z, '\n') == [x, "", z]
  {
    var parts := [x, "", z];
    assert Join(parts, '\n') == x + "\n\n" + z by {
      assert parts[1..][1..] == [z];
      assert Join(parts[1..], '\n') == "" + ['\n'] + z;
    }
    SplitJoin(parts, '\n');
  }

  /** One pair whose tag resolves to the block from `b` to `a` replaces what lies
      between them by the captured help text's pieces, each indented. */
  lemma RunOne(doc: seq<string>, p: Program, helpOf: string -> string, b: nat, a: nat, pieces: seq<string>)
    requires Locate(doc, p.tag) == Resolved(b, a)
    requires Split(HelpText(helpOf, p.cmd), '\n') == pieces
    ensures Run(doc, [p], helpOf) ==
              Done(doc[..b + 1] + seq(|pieces|, k requires 0 <= k < |pieces| => Indent + pieces[k]) + doc[a..])
  {
    RunSingle(doc, p, helpOf);
  }

  /** The end-to-end case: the help text `usage: cmd1 [-h]`, a blank line and
      `options:`, with the program's trailing newline, replaces the test document's
      usage line; every inserted line is indented by four spaces, the blank one
      included. */
  lemma EndToEnd()
    ensures Run(TestDoc("usage: cmd1"), [Program("cmd1", "usage: cmd1")],
                (cmd: string) => "usage: cmd1 [-h]\n\noptions:\n")
            == Done(["# Testing #", "", "```", "    usage: cmd1 [-h]", "    ", "    options:", "```", ""])
  {
    var x, z := "usage: cmd1 [-h]", "options:";
    assert x != [] && !IsSpace(x[0]) && '\n' !in x;
    assert z != [] && !IsSpace(z[|z| - 1]) && '\n' !in z;
    assert x + "\n\n" + z + "\n" == "usage: cmd1 [-h]\n\noptions:\n";
    assert Indent + x == "    usage: cmd1 [-h]" && Indent + "" == "    ";
    assert Indent + z == "    options:";
    TwoLineHelp((cmd: string) => "usage: cmd1 [-h]\n\noptions:\n", x, z);
  }

  /** A two-line help text with a blank line between, for the tag `usage: cmd1`. */
  lemma TwoLineHelp(helpOf: string -> string, x: string, z: string)
    requires x != [] && !IsSpace(x[0]) && '\n' !in x
    requires z != [] && !IsSpace(z[|z| - 1]) && '\n' !in z
    requires helpOf("cmd1") == x + "\n\n" + z + "\n"
    ensures Run(TestDoc("usage: cmd1"), [Program("cmd1", "usage: cmd1")], helpOf)
            == Done(["# Testing #", "", "```", Indent + x, Indent + "", Indent + z, "```", ""])
  {
    var p := Program("cmd1", "usage: cmd1");
    var text := x + "\n\n" + z;
    assert text[0] == x[0] && text[|text| - 1] == z[|z| - 1];
    StripTrailingNewline(text);
    SplitThree(x, z);
    LowerCaseTagResolves();
    RunOne(TestDoc("usage: cmd1"), p, helpOf, 2, 4, [x, "", z]);
    TestDocSplice("usage: cmd1", [x, "", z]);
  }

  /** Replacing the test document's usage line by three indented pieces. */
  lemma TestDocSplice(usageLine: string, pieces: seq<string>)
    requires |pieces| == 3
    ensures TestDoc(usageLine)[..3]
              + seq(|pieces|, k requires 0 <= k < |pieces| => Indent + pieces[k])
              + TestDoc(usageLine)[4..]
            == ["# Testing #", "", "```", Indent + pieces[0], Indent + pieces[1], Indent + pieces[2], "```", ""]
  {
    var ins := seq(|pieces|, k requires 0 <= k < |pieces| => Indent + pieces[k]);
    assert ins == [Indent + pieces[0], Indent + pieces[1], Indent + pieces[2]];
  }
}

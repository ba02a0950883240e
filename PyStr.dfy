/** The few operations of Python's `str` that the usage-section locator relies on:
    `strip()`, `lower()`, `startswith`, `endswith`, the `in` substring test,
    `split(sep)` with a one-character separator and the first item of `split()`.
    Strings are sequences of characters. */
module PyStr {

  /** The characters for which Python's `str.isspace()` holds; `strip()` and
      `split()` without arguments remove exactly these. */
  predicate IsSpace(c: char) {
    c == ' ' || ('\t' <= c <= '\r') || ('\U{1C}' <= c <= '\U{1F}')
    || c == '\U{85}' || c == '\U{A0}' || c == '\U{1680}'
    || ('\U{2000}' <= c <= '\U{200A}') || c == '\U{2028}' || c == '\U{2029}'
    || c == '\U{202F}' || c == '\U{205F}' || c == '\U{3000}'
  }

  predicate IsUpper(c: char) {
    'A' <= c <= 'Z'
  }

  predicate StartsWith(s: string, prefix: string) {
    |prefix| <= |s| && s[..|prefix|] == prefix
  }

  predicate EndsWith(s: string, suffix: string) {
    |suffix| <= |s| && s[|s| - |suffix|..] == suffix
  }

  /** `s.lstrip()`. */
  function TrimLeft(s: string): string {
    if |s| > 0 && IsSpace(s[0]) then TrimLeft(s[1..]) else s
  }

  /** `s.rstrip()`. */
  function TrimRight(s: string): string {
    if |s| > 0 && IsSpace(s[|s| - 1]) then TrimRight(s[..|s| - 1]) else s
  }

  /** `s.strip()`. */
  function Strip(s: string): string {
    TrimRight(TrimLeft(s))
  }

  /** `lstrip` leaves the suffix of `s` that starts at its first character that
      is not white space. */
  lemma {:induction false} TrimLeftSpec(s: string)
    ensures |TrimLeft(s)| <= |s| && TrimLeft(s) == s[|s| - |TrimLeft(s)|..]
    ensures forall k :: 0 <= k < |s| - |TrimLeft(s)| ==> IsSpace(s[k])
    ensures TrimLeft(s) != [] ==> !IsSpace(TrimLeft(s)[0])
    decreases |s|
  {
    if |s| > 0 && IsSpace(s[0]) {
      TrimLeftSpec(s[1..]);
    }
  }

  /** `rstrip` leaves the prefix of `s` that ends at its last character that is
      not white space. */
  lemma {:induction false} TrimRightSpec(s: string)
    ensures |TrimRight(s)| <= |s| && TrimRight(s) == s[..|TrimRight(s)|]
    ensures forall k :: |TrimRight(s)| <= k < |s| ==> IsSpace(s[k])
    ensures TrimRight(s) != [] ==> !IsSpace(TrimRight(s)[|TrimRight(s)| - 1])
    decreases |s|
  {
    if |s| > 0 && IsSpace(s[|s| - 1]) {
      TrimRightSpec(s[..|s| - 1]);
    }
  }

  /** `r` is the piece of `s` starting at offset `i`, and everything around it is white space. */
  predicate StrippedAt(s: string, r: string, i: int) {
    0 <= i <= |s| - |r| && r == s[i..i + |r|]
    && (forall k :: 0 <= k < i ==> IsSpace(s[k]))
    && (forall k :: i + |r| <= k < |s| ==> IsSpace(s[k]))
  }

  /** `strip` leaves a contiguous piece of `s` that neither starts nor ends with
      white space, cutting only white space off either side. */
  lemma {:induction false} StripSpec(s: string)
    ensures StrippedAt(s, Strip(s), |s| - |TrimLeft(s)|)
    ensures Strip(s) != [] ==> !IsSpace(Strip(s)[0]) && !IsSpace(Strip(s)[|Strip(s)| - 1])
  {
    var t := TrimLeft(s);
    TrimLeftSpec(s);
    TrimRightSpec(t);
    var r, i := Strip(s), |s| - |t|;
    assert t == s[i..];
    assert r == s[i..i + |r|];
  }

  /** `strip` is the only unpadded piece of `s` with nothing but white space around
      it. */
  lemma StripUnique(s: string, r: string, i: int)
    requires StrippedAt(s, r, i)
    requires r != [] ==> !IsSpace(r[0]) && !IsSpace(r[|r| - 1])
    ensures r == Strip(s)
  {
    var t, n := Strip(s), |s| - |TrimLeft(s)|;
    StripSpec(s);
    if r != [] {
      assert s[i] == r[0];
      PiecesAgree(s, r, i, t, n);
    }
  }

  /** Two unpadded, non-empty pieces of `s` with only white space around each are the
      same piece. */
  lemma PiecesAgree(s: string, r: string, i: int, t: string, j: int)
    requires StrippedAt(s, r, i) && r != [] && !IsSpace(r[0]) && !IsSpace(r[|r| - 1])
    requires StrippedAt(s, t, j) && t != [] && !IsSpace(t[0]) && !IsSpace(t[|t| - 1])
    ensures r == t
  {
    assert s[i] == r[0] && s[j] == t[0];
    assert s[i + |r| - 1] == r[|r| - 1] && s[j + |t| - 1] == t[|t| - 1];
  }

  /** `c.lower()` for ASCII letters; every other character is kept as it is. */
  function LowerChar(c: char): (d: char)
    ensures !IsUpper(d)
    ensures IsUpper(c) ==> d as int == c as int + 32
    ensures !IsUpper(c) ==> d == c
  {
    if IsUpper(c) then (c as int - 'A' as int + 'a' as int) as char else c
  }

  /** `s.lower()`, character by character. */
  function Lower(s: string): (r: string)
    ensures |r| == |s|
    ensures forall k {:trigger r[k]} :: 0 <= k < |s| ==> r[k] == LowerChar(s[k])
  {
    if s == [] then [] else [LowerChar(s[0])] + Lower(s[1..])
  }

  /** Python's `t in s` for strings: `t` occurs in `s` as a contiguous piece. */
  predicate Contains(s: string, t: string)
    decreases |s|
  {
    StartsWith(s, t) || (|s| > 0 && Contains(s[1..], t))
  }

  /** `Contains` is the substring test: it holds exactly when `t` sits at some offset of `s`. */
  lemma {:induction false} ContainsAt(s: string, t: string)
    ensures Contains(s, t) <==> exists i :: OccursAt(s, t, i)
    decreases |s|
  {
    if |s| > 0 {
      ContainsAt(s[1..], t);
      if Contains(s[1..], t) {
        var i :| OccursAt(s[1..], t, i);
        assert OccursAt(s, t, i + 1);
      }
      if i :| OccursAt(s, t, i) && i > 0 {
        assert OccursAt(s[1..], t, i - 1);
      }
    }
    if StartsWith(s, t) {
      assert OccursAt(s, t, 0);
    }
    if i :| OccursAt(s, t, i) && i == 0 {
      assert StartsWith(s, t);
    }
  }

  /** `t` occurs in `s` at offset `i`. */
  predicate OccursAt(s: string, t: string, i: int) {
    0 <= i <= |s| - |t| && s[i..i + |t|] == t
  }

  /** A string without an upper-case letter never contains one with an upper-case letter. */
  lemma {:induction false} NoUpperNotContained(s: string, t: string, k: nat)
    requires k < |t| && IsUpper(t[k])
    requires forall j :: 0 <= j < |s| ==> !IsUpper(s[j])
    ensures !Contains(s, t)
    decreases |s|
  {
    if |s| > 0 {
      NoUpperNotContained(s[1..], t, k);
    }
  }

  /** The number of occurrences of `c` in `s`. */
  function Count(s: string, c: char): nat {
    if s == [] then 0 else (if s[0] == c then 1 else 0) + Count(s[1..], c)
  }

  /** `sep.join(parts)` for a one-character separator. */
  function Join(parts: seq<string>, sep: char): string
    requires |parts| >= 1
  {
    if |parts| == 1 then parts[0] else parts[0] + [sep] + Join(parts[1..], sep)
  }

  /** `s.split(sep)` for a one-character separator: one piece more than there are
      separators, no piece holding the separator, and joining them gives `s` back. */
  function Split(s: string, sep: char): (r: seq<string>)
    ensures |r| == Count(s, sep) + 1
    ensures forall k :: 0 <= k < |r| ==> sep !in r[k]
    ensures Join(r, sep) == s
  {
    if s == [] then [[]]
    else
      var rest := Split(s[1..], sep);
      if s[0] == sep then [[]] + rest
      else
        assert rest == [rest[0]] + rest[1..];
        [[s[0]] + rest[0]] + rest[1..]
  }

  /** Joining one more piece adds the separator and that piece at the end. */
  lemma {:induction false} JoinSnoc(parts: seq<string>, x: string, sep: char)
    requires |parts| >= 1
    ensures Join(parts + [x], sep) == Join(parts, sep) + [sep] + x
    decreases |parts|
  {
    assert (parts + [x])[0] == parts[0];
    if |parts| > 1 {
      assert (parts + [x])[1..] == parts[1..] + [x];
      JoinSnoc(parts[1..], x, sep);
    } else {
      assert (parts + [x])[1..] == [x];
    }
  }

  /** A text, a separator and a piece without separator split into the text's
      pieces followed by that piece. */
  lemma {:induction false} SplitSnoc(a: string, b: string, sep: char)
    requires sep !in b
    ensures Split(a + [sep] + b, sep) == Split(a, sep) + [b]
  {
    var parts := Split(a, sep) + [b];
    JoinSnoc(Split(a, sep), b, sep);
    SplitJoin(parts, sep);
  }

  /** Splitting a join of pieces that hold no separator gives the pieces back. */
  lemma {:induction false} SplitJoin(parts: seq<string>, sep: char)
    requires |parts| >= 1
    requires forall k :: 0 <= k < |parts| ==> sep !in parts[k]
    ensures Split(Join(parts, sep), sep) == parts
    decreases |parts|, |parts[0]|
  {
    var p := parts[0];
    if p != [] {
      var tail := [p[1..]] + parts[1..];
      SplitJoin(tail, sep);
      JoinFirstChar(parts, sep);
      assert p[0] != sep by { assert p[0] in p; }
      assert Join(parts, sep)[1..] == Join(tail, sep);
      assert [p[0]] + tail[0] == p;
      assert tail[1..] == parts[1..];
      assert [[p[0]] + tail[0]] + tail[1..] == parts;
    } else if |parts| > 1 {
      SplitJoin(parts[1..], sep);
      assert Join(parts, sep)[1..] == Join(parts[1..], sep);
    }
  }

  /** A join whose first piece is not empty starts with that piece's first character,
      followed by the join with that character dropped. */
  lemma {:induction false} JoinFirstChar(parts: seq<string>, sep: char)
    requires |parts| >= 1 && parts[0] != []
    ensures Join(parts, sep) == [parts[0][0]] + Join([parts[0][1..]] + parts[1..], sep)
  {
    var p, tail := parts[0], [parts[0][1..]] + parts[1..];
    assert p == [p[0]] + p[1..];
    if |parts| > 1 {
      assert tail[1..] == parts[1..];
      assert Join(tail, sep) == p[1..] + [sep] + Join(parts[1..], sep);
    }
  }

  /** The leading run of non-white-space characters of `s`. */
  function Word(s: string): (w: string)
    ensures |w| <= |s| && w == s[..|w|]
    ensures forall k :: 0 <= k < |w| ==> !IsSpace(w[k])
    ensures |w| < |s| ==> IsSpace(s[|w|])
  {
    if s == [] || IsSpace(s[0]) then [] else [s[0]] + Word(s[1..])
  }

  /** `s.split()[0]`: the first white-space separated word of `s`, or `None`
      where Python raises an `IndexError` because `s` is all white space. */
  function FirstWord(s: string): (r: Option<string>)
    ensures r.None? <==> forall k :: 0 <= k < |s| ==> IsSpace(s[k])
    ensures r.Some? ==> r.value != [] && forall k :: 0 <= k < |r.value| ==> !IsSpace(r.value[k])
    ensures r.Some? ==>
              var n := |s| - |TrimLeft(s)|;
              0 <= n && n + |r.value| <= |s| && r.value == s[n..n + |r.value|]
              && (forall k :: 0 <= k < n ==> IsSpace(s[k]))
              && (n + |r.value| < |s| ==> IsSpace(s[n + |r.value|]))
  {
    var t := TrimLeft(s);
    TrimLeftSpec(s);
    if t == [] then None
    else
      var n := |s| - |t|;
      assert t[0] == s[n];
      var w := Word(t);
      assert w == s[n..n + |w|];
      Some(w)
  }

  /** A word free of white space, followed by white space or by nothing, is the
      first word of the text. */
  lemma FirstWordOf(w: string, rest: string)
    requires w != [] && forall k :: 0 <= k < |w| ==> !IsSpace(w[k])
    requires rest == [] || IsSpace(rest[0])
    ensures FirstWord(w + rest) == Some(w)
  {
    var s := w + rest;
    assert TrimLeft(s) == s by { assert s[0] == w[0]; }
    var r := FirstWord(s);
    assert r.Some? by { assert !IsSpace(s[0]); }
    var v := r.value;
    assert |s| - |TrimLeft(s)| == 0;
    assert v == s[..|v|];
    assert |v| <= |w| by {
      if |w| < |s| {
        assert IsSpace(s[|w|]) by { assert s[|w|] == rest[0]; }
        assert forall k :: 0 <= k < |v| ==> !IsSpace(s[k]) by {
          forall k | 0 <= k < |v| ensures !IsSpace(s[k]) { assert s[k] == v[k]; }
        }
      }
    }
    assert |v| < |s| ==> IsSpace(s[|v|]);
    assert forall k :: 0 <= k < |w| ==> s[k] == w[k];
    assert v == s[..|w|] == w;
  }

  /** A non-empty sequence is its front followed by its last element. */
  lemma InitLast<T>(s: seq<T>)
    requires s != []
    ensures s == s[..|s| - 1] + [s[|s| - 1]]
  {
  }

  datatype Option<T> = None | Some(value: T)
}

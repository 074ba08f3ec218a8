/**
 * `common/string_util.h`: joining values with ", " and crunching white
 * space.
 */
module StringUtil {
  import Decimal

  /**
   * One argument of the variadic `Join`: a string is used as it is, any
   * other (integral) argument goes through `std::to_string`.
   */
  datatype JoinArg = Text(s: string) | Integer(n: int)

  function Render(a: JoinArg): string
  {
    match a
    case Text(s) => s
    case Integer(n) => Decimal.IntToString(n)
  }

  /**
   * The variadic `Join(x, xs...)`: `Join()` is "", `Join(x)` renders x, and
   * `Join(x, xs...)` is x rendered, then ", ", then `Join(xs...)`.
   */
  function Join(args: seq<JoinArg>): (r: string)
  {
    if args == [] then ""
    else if |args| == 1 then Render(args[0])
    else Render(args[0]) + ", " + Join(args[1..])
  }

  function Texts(ss: seq<string>): (r: seq<JoinArg>)
    ensures |r| == |ss| && forall i :: 0 <= i < |ss| ==> r[i] == Text(ss[i])
  {
    if ss == [] then [] else [Text(ss[0])] + Texts(ss[1..])
  }

  /** Joining one more argument appends ", " and that argument. */
  lemma {:induction false} JoinSnoc(args: seq<JoinArg>, a: JoinArg)
    requires args != []
    ensures Join(args + [a]) == Join(args) + ", " + Render(a)
  {
    var xs := args + [a];
    assert xs[0] == args[0];
    if |args| == 1 {
      assert xs[1..] == [a];
      assert Join(xs) == Render(args[0]) + ", " + Join([a]);
    } else {
      assert xs[1..] == args[1..] + [a];
      JoinSnoc(args[1..], a);
      assert Join(xs) == Render(args[0]) + ", " + Join(args[1..] + [a]);
    }
  }

  /** `Join` of a single string gives it back unchanged; with nothing to join, "". */
  lemma JoinSingleAndEmpty(x: string)
    ensures Join([Text(x)]) == x && Join([]) == ""
  {
  }

  function TotalLength(ss: seq<string>): nat
  {
    if ss == [] then 0 else |ss[0]| + TotalLength(ss[1..])
  }

  /** n strings joined: their characters plus exactly n-1 separators of two characters. */
  lemma {:induction false} JoinLength(ss: seq<string>)
    requires ss != []
    ensures |Join(Texts(ss))| == TotalLength(ss) + 2 * (|ss| - 1)
  {
    if |ss| > 1 {
      assert Texts(ss)[1..] == Texts(ss[1..]);
      JoinLength(ss[1..]);
    }
  }

  /**
   * Every joined string appears in order: the i-th string starts right after
   * the first i strings and their i separators.
   */
  lemma {:induction false} JoinPlacesEach(ss: seq<string>, i: nat)
    requires i < |ss|
    ensures var start := TotalLength(ss[..i]) + 2 * i;
      start + |ss[i]| <= |Join(Texts(ss))| &&
      Join(Texts(ss))[start..start + |ss[i]|] == ss[i]
  {
    var r := Join(Texts(ss));
    if i == 0 {
      assert ss[..0] == [];
      if |ss| > 1 { JoinTextsCons(ss); }
    } else {
      var tail := ss[1..];
      JoinPlacesEach(tail, i - 1);
      JoinTextsCons(ss);
      TotalLengthCons(ss, i);
      var head := ss[0] + ", ";
      var start' := TotalLength(tail[..i - 1]) + 2 * (i - 1);
      assert tail[i - 1] == ss[i];
      var rest := Join(Texts(tail));
      assert r == head + rest;
      assert TotalLength(ss[..i]) + 2 * i == |head| + start';
      SliceAfter(head, rest, start', start' + |ss[i]|);
    }
  }

  /** Joining two or more strings: the first, ", ", then the rest joined. */
  lemma JoinTextsCons(ss: seq<string>)
    requires |ss| > 1
    ensures Join(Texts(ss)) == ss[0] + ", " + Join(Texts(ss[1..]))
  {
    assert Texts(ss)[1..] == Texts(ss[1..]);
  }

  /** The length of the first i strings is the first one's plus that of the next i-1. */
  lemma TotalLengthCons(ss: seq<string>, i: nat)
    requires 0 < i <= |ss|
    ensures TotalLength(ss[..i]) == |ss[0]| + TotalLength(ss[1..][..i - 1])
  {
    assert ss[..i][1..] == ss[1..][..i - 1];
  }

  /** A slice inside the second part of a concatenation. */
  lemma SliceAfter(a: string, b: string, x: nat, y: nat)
    requires x <= y <= |b|
    ensures (a + b)[|a| + x..|a| + y] == b[x..y]
  {
  }

  /** The texts of one more string gain that string. */
  lemma TextsSnoc(ss: seq<string>, i: nat)
    requires i < |ss|
    ensures Texts(ss[..i + 1]) == Texts(ss[..i]) + [Text(ss[i])]
  {
    var a, b := Texts(ss[..i + 1]), Texts(ss[..i]);
    forall j | 0 <= j < |a|
      ensures a[j] == (b + [Text(ss[i])])[j]
    {
      if j < i {
        assert a[j] == Text(ss[j]) == b[j];
      }
    }
  }

  /**
   * `detail::JoinIterators` over a `std::vector` or `std::array` of strings:
   * each element is appended, followed by ", " unless it is the last.
   */
  method JoinIterators(ss: seq<string>) returns (s: string)
    ensures s == Join(Texts(ss))
  {
    s := "";
    var i := 0;
    while i < |ss|
      invariant 0 <= i <= |ss|
      invariant i == 0 ==> s == ""
      invariant 0 < i < |ss| ==> s == Join(Texts(ss[..i])) + ", "
      invariant 0 < i == |ss| ==> s == Join(Texts(ss[..i]))
    {
      s := s + ss[i];
      TextsSnoc(ss, i);
      if i > 0 {
        JoinSnoc(Texts(ss[..i]), Text(ss[i]));
      }
      i := i + 1;
      if i < |ss| {
        s := s + ", ";
      }
    }
    assert ss[..|ss|] == ss;
  }

  // ---------------------------------------------------------------------
  // CrunchWhitespace

  /** Every newline replaced by a space. */
  function NewlinesToSpaces(s: string): (r: string)
    ensures |r| == |s|
    ensures forall i :: 0 <= i < |s| ==> r[i] == if s[i] == '\n' then ' ' else s[i]
  {
    if s == [] then [] else [if s[0] == '\n' then ' ' else s[0]] + NewlinesToSpaces(s[1..])
  }

  /** Every run of spaces shortened to a single space. */
  function Destutter(s: string): string
  {
    if |s| <= 1 then s
    else if s[0] == ' ' && s[1] == ' ' then Destutter(s[1..])
    else [s[0]] + Destutter(s[1..])
  }

  /** `CrunchWhitespace`: newlines become spaces, then runs of spaces collapse to one. */
  function CrunchWhitespace(s: string): string
  {
    Destutter(NewlinesToSpaces(s))
  }

  predicate NoDoubleSpace(s: string)
  {
    forall i :: 0 <= i < |s| - 1 ==> !(s[i] == ' ' && s[i + 1] == ' ')
  }

  /** The characters of `s` other than spaces and newlines, in order. */
  function Visible(s: string): string
  {
    if s == [] then []
    else if s[0] == ' ' || s[0] == '\n' then Visible(s[1..])
    else [s[0]] + Visible(s[1..])
  }

  lemma {:induction false} DestutterFacts(s: string)
    ensures |Destutter(s)| <= |s|
    ensures s != [] ==> Destutter(s) != [] && Destutter(s)[0] == s[0]
    ensures NoDoubleSpace(Destutter(s))
    ensures '\n' !in s ==> '\n' !in Destutter(s)
    ensures Visible(Destutter(s)) == Visible(s)
  {
    if |s| > 1 {
      DestutterFacts(s[1..]);
      var d := Destutter(s[1..]);
      if !(s[0] == ' ' && s[1] == ' ') {
        assert Destutter(s) == [s[0]] + d;
        assert ([s[0]] + d)[1..] == d;
      }
    }
  }

  lemma {:induction false} VisibleOfSpaces(s: string)
    ensures Visible(NewlinesToSpaces(s)) == Visible(s)
  {
    if s != [] {
      assert NewlinesToSpaces(s)[1..] == NewlinesToSpaces(s[1..]);
      VisibleOfSpaces(s[1..]);
    }
  }

  /**
   * The result has no newline and no two adjacent spaces, keeps every other
   * character in order, and begins with white space exactly when `s` does.
   */
  lemma CrunchWhitespaceSpec(s: string)
    ensures var r := CrunchWhitespace(s);
      '\n' !in r && NoDoubleSpace(r) && Visible(r) == Visible(s) &&
      (r != [] <==> s != []) &&
      (s != [] ==> (r[0] == ' ' <==> s[0] == ' ' || s[0] == '\n'))
  {
    var t := NewlinesToSpaces(s);
    assert '\n' !in t;
    DestutterFacts(t);
    VisibleOfSpaces(s);
  }

  /** Whether `s[i]` survives destuttering: it does unless it is a space followed by a space. */
  predicate KeptAt(s: string, i: nat)
    requires i < |s|
  {
    !(s[i] == ' ' && i + 1 < |s| && s[i + 1] == ' ')
  }

  /** The characters `s[i..]` that `KeptAt` keeps, in order: a filter over positions. */
  function KeptFrom(s: string, i: nat): string
    requires i <= |s|
    decreases |s| - i
  {
    if i == |s| then [] else (if KeptAt(s, i) then [s[i]] else []) + KeptFrom(s, i + 1)
  }

  /** Destuttering drops exactly the spaces that another space follows, so each run of spaces keeps its last one. */
  lemma {:induction false} DestutterIsFilter(s: string, i: nat)
    requires i <= |s|
    ensures Destutter(s[i..]) == KeptFrom(s, i)
    decreases |s| - i
  {
    if i < |s| {
      DestutterIsFilter(s, i + 1);
      assert s[i..][1..] == s[i + 1..];
      if i + 1 == |s| {
        assert s[i..] == [s[i]];
      }
    }
  }

  predicate IsWhite(c: char)
  {
    c == ' ' || c == '\n'
  }

  /**
   * A reference reading of `CrunchWhitespace` on `s[i..]`: each maximal run of
   * spaces and newlines is replaced by one space (the run's last character,
   * turned into a space), and every other character is kept.
   */
  function CrunchedFrom(s: string, i: nat): string
    requires i <= |s|
    decreases |s| - i
  {
    if i == |s| then []
    else if IsWhite(s[i]) && i + 1 < |s| && IsWhite(s[i + 1]) then CrunchedFrom(s, i + 1)
    else [if IsWhite(s[i]) then ' ' else s[i]] + CrunchedFrom(s, i + 1)
  }

  lemma {:induction false} KeptFromSpaces(s: string, i: nat)
    requires i <= |s|
    ensures KeptFrom(NewlinesToSpaces(s), i) == CrunchedFrom(s, i)
    decreases |s| - i
  {
    if i < |s| {
      KeptFromSpaces(s, i + 1);
    }
  }

  /** `CrunchWhitespace` agrees with the run-by-run reference reading on every string. */
  lemma CrunchWhitespaceIsReference(s: string)
    ensures CrunchWhitespace(s) == CrunchedFrom(s, 0)
  {
    var t := NewlinesToSpaces(s);
    DestutterIsFilter(t, 0);
    assert t[0..] == t;
    KeptFromSpaces(s, 0);
  }

  /** White space between two words survives as exactly one space. */
  lemma {:induction false} CrunchWhitespaceSeparates(u: string, w: string, v: string)
    requires w != [] && forall k :: 0 <= k < |w| ==> IsWhite(w[k])
    requires u == [] || !IsWhite(u[|u| - 1])
    requires v == [] || !IsWhite(v[0])
    ensures CrunchWhitespace(u + w + v) == CrunchWhitespace(u) + " " + CrunchWhitespace(v)
  {
    var s := u + w + v;
    CrunchWhitespaceIsReference(s);
    CrunchWhitespaceIsReference(u);
    CrunchWhitespaceIsReference(v);
    CrunchedSplitLeft(u, w + v, 0);
    assert s == u + (w + v);
    assert s[|u|..] == w + v;
    CrunchedShift(s, |u|, w + v);
    CrunchedRun(w, v, 0);
    assert (w + v)[|w|..] == v;
    CrunchedShift(w + v, |w|, v);
    assert v[0..] == v;
  }

  /** Crunching `u + x` where `u` ends in a non-white character splits at the boundary. */
  lemma {:induction false} CrunchedSplitLeft(u: string, x: string, i: nat)
    requires i <= |u|
    requires u == [] || !IsWhite(u[|u| - 1])
    ensures CrunchedFrom(u + x, i) == CrunchedFrom(u, i) + CrunchedFrom(u + x, |u|)
    decreases |u| - i
  {
    if i < |u| {
      CrunchedSplitLeft(u, x, i + 1);
      assert (u + x)[i] == u[i];
      if i + 1 < |u| {
        assert (u + x)[i + 1] == u[i + 1];
      }
    }
  }

  /** A non-empty run of white space followed by `v` (empty or starting non-white) crunches to one space. */
  lemma {:induction false} CrunchedRun(w: string, v: string, i: nat)
    requires i < |w| && forall k :: 0 <= k < |w| ==> IsWhite(w[k])
    requires v == [] || !IsWhite(v[0])
    ensures CrunchedFrom(w + v, i) == " " + CrunchedFrom(w + v, |w|)
    decreases |w| - i
  {
    assert (w + v)[i] == w[i];
    if i + 1 < |w| {
      assert (w + v)[i + 1] == w[i + 1];
      CrunchedRun(w, v, i + 1);
    } else if v != [] {
      assert (w + v)[i + 1] == v[0];
    }
  }

  /** Crunching a suffix depends only on the suffix. */
  lemma {:induction false} CrunchedShift(s: string, j: nat, v: string)
    requires j <= |s| && s[j..] == v
    ensures CrunchedFrom(s, j) == CrunchedFrom(v, 0)
  {
    CrunchedShiftAt(s, j, v, 0);
  }

  lemma {:induction false} CrunchedShiftAt(s: string, j: nat, v: string, i: nat)
    requires j <= |s| && s[j..] == v && i <= |v|
    ensures CrunchedFrom(s, j + i) == CrunchedFrom(v, i)
    decreases |v| - i
  {
    if i < |v| {
      assert s[j + i] == v[i];
      if i + 1 < |v| {
        assert s[j + i + 1] == v[i + 1];
      }
      CrunchedShiftAt(s, j, v, i + 1);
    }
  }

  /** A string already free of newlines and double spaces is left unchanged; so crunching twice is crunching once. */
  lemma {:induction false} CrunchWhitespaceFixpoint(s: string)
    requires '\n' !in s && NoDoubleSpace(s)
    ensures CrunchWhitespace(s) == s
  {
    assert NewlinesToSpaces(s) == s;
    DestutterOfClean(s);
  }

  lemma {:induction false} DestutterOfClean(s: string)
    requires NoDoubleSpace(s)
    ensures Destutter(s) == s
  {
    if |s| > 1 {
      assert NoDoubleSpace(s[1..]) by {
        forall i | 0 <= i < |s[1..]| - 1 ensures !(s[1..][i] == ' ' && s[1..][i + 1] == ' ') {
          assert s[1..][i] == s[i + 1] && s[1..][i + 1] == s[i + 2];
        }
      }
      DestutterOfClean(s[1..]);
    }
  }

  lemma CrunchWhitespaceIdempotent(s: string)
    ensures CrunchWhitespace(CrunchWhitespace(s)) == CrunchWhitespace(s)
  {
    CrunchWhitespaceSpec(s);
    CrunchWhitespaceFixpoint(CrunchWhitespace(s));
  }

  /** The fifteen documented examples. */
  lemma CrunchWhitespaceExamples()
    ensures CrunchWhitespace("") == ""
    ensures CrunchWhitespace(" ") == " "
    ensures CrunchWhitespace("  ") == " "
    ensures CrunchWhitespace("   ") == " "
    ensures CrunchWhitespace("a") == "a"
    ensures CrunchWhitespace(" a") == " a"
    ensures CrunchWhitespace(" a ") == " a "
    ensures CrunchWhitespace("  a ") == " a "
    ensures CrunchWhitespace("   a ") == " a "
    ensures CrunchWhitespace(" a  ") == " a "
    ensures CrunchWhitespace("  a  ") == " a "
    ensures CrunchWhitespace("   a  ") == " a "
    ensures CrunchWhitespace("\n") == " "
    ensures CrunchWhitespace("\n\n") == " "
    ensures CrunchWhitespace("\n \n") == " "
  {
    WhiteOnlyExamples();
    OneSpaceAfterExamples();
    TwoSpacesAfterExamples();
  }

  lemma WhiteOnlyExamples()
    ensures CrunchWhitespace("") == "" && CrunchWhitespace(" ") == " "
    ensures CrunchWhitespace("  ") == " " && CrunchWhitespace("   ") == " "
    ensures CrunchWhitespace("\n") == " " && CrunchWhitespace("\n\n") == " "
    ensures CrunchWhitespace("\n \n") == " "
  {
    assert NewlinesToSpaces(" ") == " ";
    assert NewlinesToSpaces("  ") == "  ";
    assert NewlinesToSpaces("   ") == "   ";
    assert NewlinesToSpaces("\n") == " ";
    assert NewlinesToSpaces("\n\n") == "  ";
    assert NewlinesToSpaces("\n \n") == "   ";
    assert Destutter("  ") == " ";
    assert Destutter("   ") == " ";
  }

  lemma OneSpaceAfterExamples()
    ensures CrunchWhitespace("a") == "a" && CrunchWhitespace(" a") == " a"
    ensures CrunchWhitespace(" a ") == " a " && CrunchWhitespace("  a ") == " a "
    ensures CrunchWhitespace("   a ") == " a "
  {
    assert NewlinesToSpaces("a") == "a";
    assert NewlinesToSpaces(" a") == " a";
    assert NewlinesToSpaces(" a ") == " a ";
    assert NewlinesToSpaces("  a ") == "  a ";
    assert NewlinesToSpaces("   a ") == "   a ";
    assert Destutter("a ") == "a ";
    assert Destutter(" a ") == " a ";
    assert Destutter("  a ") == " a ";
    assert Destutter("   a ") == " a ";
  }

  lemma TwoSpacesAfterExamples()
    ensures CrunchWhitespace(" a  ") == " a " && CrunchWhitespace("  a  ") == " a "
    ensures CrunchWhitespace("   a  ") == " a "
  {
    assert NewlinesToSpaces(" a  ") == " a  ";
    assert NewlinesToSpaces("  a  ") == "  a  ";
    assert NewlinesToSpaces("   a  ") == "   a  ";
    assert Destutter("a  ") == "a ";
    assert Destutter(" a  ") == " a ";
    assert Destutter("  a  ") == " a ";
    assert Destutter("   a  ") == " a ";
  }
}

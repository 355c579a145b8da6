/**
 * The observable effect of the Guava string utilities that IsPojo uses:
 * Splitter.on('\n'), Joiner.on(sep) and the LOWER_CAMEL to UPPER_CAMEL
 * conversion of CaseFormat, plus the re-indentation built from them.
 */
module Strings {

  /** Splitter.on('\n').split(s): every '\n' ends a piece and no piece is
      dropped or trimmed, so there is always at least one piece. */
  function Split(s: string): (r: seq<string>)
    ensures |r| >= 1
    ensures forall i :: 0 <= i < |r| ==> '\n' !in r[i]
  {
    if |s| == 0 then [""]
    else if s[0] == '\n' then [""] + Split(s[1..])
    else
      var rest := Split(s[1..]);
      [[s[0]] + rest[0]] + rest[1..]
  }

  /** Joiner.on(sep).join(parts). */
  function Join(sep: string, parts: seq<string>): string
  {
    if |parts| == 0 then ""
    else if |parts| == 1 then parts[0]
    else parts[0] + sep + Join(sep, parts[1..])
  }

  /** Reference definition: every '\n' of s replaced by sep, every other
      character kept. */
  function ReplaceNewlines(s: string, sep: string): string
  {
    if |s| == 0 then ""
    else (if s[0] == '\n' then sep else [s[0]]) + ReplaceNewlines(s[1..], sep)
  }

  /** The text of the Joiner/Splitter pair in IsPojo.indentDescription:
      the lines of s joined again by a newline followed by two spaces. */
  function Indent(s: string): string
  {
    Join("\n  ", Split(s))
  }

  /** Every line prefixed by p. */
  function PrefixAll(p: string, lines: seq<string>): (r: seq<string>)
    ensures |r| == |lines|
    ensures forall i :: 0 <= i < |lines| ==> r[i] == p + lines[i]
  {
    if |lines| == 0 then [] else [p + lines[0]] + PrefixAll(p, lines[1..])
  }

  /** The upper-case ASCII letter for a lower-case one; any other character
      is kept (Guava's Ascii.toUpperCase). */
  function ToUpperAscii(c: char): char
  {
    if 'a' <= c <= 'z' then (c as int - 32) as char else c
  }

  function ToLowerAscii(c: char): char
  {
    if 'A' <= c <= 'Z' then (c as int + 32) as char else c
  }

  /** CaseFormat.LOWER_CAMEL.to(UPPER_CAMEL, s). Word boundaries of
      LOWER_CAMEL are the ASCII capitals, and every word is re-cased to a
      capital followed by the word's remaining characters in lower case;
      those remaining characters are never ASCII capitals, so the net effect
      is to upper-case the first character only. */
  function UpperCamel(s: string): string
  {
    if |s| == 0 then s else [ToUpperAscii(s[0])] + s[1..]
  }

  /** CaseFormat.UPPER_CAMEL.to(LOWER_CAMEL, s), by the same reasoning. */
  function LowerCamel(s: string): string
  {
    if |s| == 0 then s else [ToLowerAscii(s[0])] + s[1..]
  }

  /** A lower-camel name: it does not start with an ASCII capital. */
  predicate IsLowerCamel(s: string)
  {
    |s| == 0 || !('A' <= s[0] <= 'Z')
  }

  // ---------------------------------------------------------------------
  // Splitting and joining

  /** The lines of a concatenation, given the lines a of the first part
      and b of the second: the last line of a fuses with the first of b. */
  function Fuse(a: seq<string>, b: seq<string>): seq<string>
    requires |a| >= 1 && |b| >= 1
  {
    a[..|a| - 1] + [a[|a| - 1] + b[0]] + b[1..]
  }

  lemma FuseConsHead(c: string, a: seq<string>, b: seq<string>)
    requires |a| >= 1 && |b| >= 1
    ensures var g := Fuse(a, b);
      Fuse([c + a[0]] + a[1..], b) == [c + g[0]] + g[1..]
  {
    var a' := [c + a[0]] + a[1..];
    if |a| == 1 {
      assert a'[..0] == [] && a'[0] == c + a[0];
      assert c + a[0] + b[0] == c + (a[0] + b[0]);
    } else {
      assert a'[..|a'| - 1] == [c + a[0]] + a[1..|a| - 1];
      assert a'[|a'| - 1] == a[|a| - 1];
      assert Fuse(a, b)[1..] == a[1..|a| - 1] + [a[|a| - 1] + b[0]] + b[1..];
    }
  }

  /** A whole line in front of the lines a stays in front after fusing. */
  lemma FuseConsLine(line: string, a: seq<string>, b: seq<string>)
    requires |a| >= 1 && |b| >= 1
    ensures Fuse([line] + a, b) == [line] + Fuse(a, b)
  {
    var a' := [line] + a;
    assert a'[..|a'| - 1] == [line] + a[..|a| - 1];
    assert a'[|a'| - 1] == a[|a| - 1];
  }

  /** Splitting a text that starts with the character c. */
  lemma SplitCons(c: char, s: string)
    ensures Split([c] + s) ==
      if c == '\n' then [""] + Split(s) else [[c] + Split(s)[0]] + Split(s)[1..]
  {
    assert ([c] + s)[0] == c && ([c] + s)[1..] == s;
  }

  /** Splitting a concatenation: the last piece of x and the first piece of
      y fuse into one line, all other pieces are kept. */
  lemma {:induction false} SplitAppend(x: string, y: string)
    ensures Split(x + y) == Fuse(Split(x), Split(y))
  {
    if |x| == 0 {
      assert x + y == y;
      var sy := Split(y);
      assert Split(x) == [""];
      assert "" + sy[0] == sy[0];
      assert [sy[0]] + sy[1..] == sy;
    } else {
      var c, x' := x[0], x[1..];
      assert x == [c] + x';
      assert x + y == [c] + (x' + y);
      SplitCons(c, x');
      SplitCons(c, x' + y);
      SplitAppend(x', y);
      if c == '\n' {
        FuseConsLine("", Split(x'), Split(y));
      } else {
        FuseConsHead([c], Split(x'), Split(y));
      }
    }
  }

  /** Text without a newline is a single line. */
  lemma {:induction false} SplitNoNewline(s: string)
    requires '\n' !in s
    ensures Split(s) == [s]
  {
    if |s| > 0 {
      assert '\n' !in s[1..] by {
        forall i | 0 <= i < |s[1..]| ensures s[1..][i] != '\n' { assert s[1..][i] == s[i + 1]; }
      }
      SplitNoNewline(s[1..]);
      assert [s[0]] + s[1..] == s;
    }
  }

  /** A newline between x and y separates their lines. */
  lemma SplitAtNewline(x: string, y: string)
    ensures Split(x + "\n" + y) == Split(x) + Split(y)
  {
    SplitAppend(x, "\n" + y);
    assert x + "\n" + y == x + ("\n" + y);
    assert ("\n" + y)[0] == '\n' && ("\n" + y)[1..] == y;
    var sx, sy := Split(x), Split("\n" + y);
    assert sy == [""] + Split(y);
    assert sy[0] == "" && sy[1..] == Split(y);
    assert sx[|sx| - 1] + "" == sx[|sx| - 1];
    assert sx[..|sx| - 1] + [sx[|sx| - 1]] == sx;
  }

  lemma JoinConsHead(sep: string, c: string, x: string, tail: seq<string>)
    ensures Join(sep, [c + x] + tail) == c + Join(sep, [x] + tail)
  {
    assert ([c + x] + tail)[1..] == tail;
    assert ([x] + tail)[1..] == tail;
  }

  /** Joining the pieces of s with sep puts sep wherever s had a newline. */
  lemma {:induction false} JoinSplit(sep: string, s: string)
    ensures Join(sep, Split(s)) == ReplaceNewlines(s, sep)
  {
    if |s| > 0 {
      JoinSplit(sep, s[1..]);
      var rest := Split(s[1..]);
      if s[0] == '\n' {
        assert Split(s) == [""] + rest;
        assert ([""] + rest)[1..] == rest;
        assert Join(sep, [""] + rest) == "" + sep + Join(sep, rest);
      } else {
        assert Split(s) == [[s[0]] + rest[0]] + rest[1..];
        JoinConsHead(sep, [s[0]], rest[0], rest[1..]);
        assert [rest[0]] + rest[1..] == rest;
      }
    }
  }

  lemma {:induction false} ReplaceNewlineByItself(s: string)
    ensures ReplaceNewlines(s, "\n") == s
  {
    if |s| > 0 {
      ReplaceNewlineByItself(s[1..]);
      assert (if s[0] == '\n' then "\n" else [s[0]]) == [s[0]];
      assert [s[0]] + s[1..] == s;
    }
  }

  /** Splitter followed by Joiner on the same separator gives the text back. */
  lemma JoinSplitRoundTrip(s: string)
    ensures Join("\n", Split(s)) == s
  {
    JoinSplit("\n", s);
    ReplaceNewlineByItself(s);
  }

  /** Joiner followed by Splitter gives the lines back, provided no line
      holds a newline of its own. */
  lemma {:induction false} SplitJoinRoundTrip(parts: seq<string>)
    requires |parts| >= 1
    requires forall i :: 0 <= i < |parts| ==> '\n' !in parts[i]
    ensures Split(Join("\n", parts)) == parts
  {
    SplitNoNewline(parts[0]);
    if |parts| > 1 {
      SplitJoinRoundTrip(parts[1..]);
      SplitAtNewline(parts[0], Join("\n", parts[1..]));
      assert [parts[0]] + parts[1..] == parts;
    }
  }

  // ---------------------------------------------------------------------
  // Re-indentation

  /** Joining on a separator that ends with p is joining on the rest of the
      separator after prefixing every line but the first with p. */
  lemma {:induction false} JoinLongerSeparator(sep: string, p: string, lines: seq<string>)
    requires |lines| >= 1
    ensures Join(sep + p, lines) == Join(sep, [lines[0]] + PrefixAll(p, lines[1..]))
  {
    var rest := lines[1..];
    if |rest| > 0 {
      JoinLongerSeparator(sep, p, rest);
      var shifted := PrefixAll(p, rest[1..]);
      JoinConsHead(sep, p, rest[0], shifted);
      assert PrefixAll(p, rest) == [p + rest[0]] + shifted;
      assert ([lines[0]] + PrefixAll(p, rest))[1..] == PrefixAll(p, rest);
    } else {
      assert [lines[0]] + PrefixAll(p, rest) == [lines[0]];
    }
  }

  /** Indent replaces every newline by a newline and two spaces and leaves
      every other character alone. */
  lemma IndentReplacesNewlines(s: string)
    ensures Indent(s) == ReplaceNewlines(s, "\n  ")
  {
    JoinSplit("\n  ", s);
  }

  /** Text with no newline passes through Indent unchanged. */
  lemma IndentSingleLine(s: string)
    requires '\n' !in s
    ensures Indent(s) == s
  {
    SplitNoNewline(s);
  }

  /** The lines of an indented text: the first line as it was, then every
      later line behind two spaces. */
  lemma IndentedSplit(s: string)
    ensures Split(Indent(s)) == [Split(s)[0]] + PrefixAll("  ", Split(s)[1..])
  {
    var lines := Split(s);
    var moved := [lines[0]] + PrefixAll("  ", lines[1..]);
    JoinLongerSeparator("\n", "  ", lines);
    assert "\n" + "  " == "\n  ";
    forall i | 0 <= i < |moved| ensures '\n' !in moved[i] {
      if i > 0 {
        assert moved[i] == "  " + lines[i];
        assert '\n' !in "  ";
      }
    }
    SplitJoinRoundTrip(moved);
  }

  /** Indent keeps the number of lines and the first line, and gives every
      later line exactly two more leading spaces. */
  lemma IndentLines(s: string)
    ensures var lines, out := Split(s), Split(Indent(s));
      && |out| == |lines|
      && out[0] == lines[0]
      && forall i :: 1 <= i < |lines| ==> out[i] == "  " + lines[i]
  {
    IndentedSplit(s);
  }

  /** Indent applied once per level of nesting. */
  function IndentTimes(s: string, depth: nat): string
  {
    if depth == 0 then s else Indent(IndentTimes(s, depth - 1))
  }

  function Spaces(n: nat): (r: string)
    ensures |r| == n
    ensures forall i :: 0 <= i < n ==> r[i] == ' '
  {
    if n == 0 then "" else " " + Spaces(n - 1)
  }

  /** out holds the same lines as lines, with the first line as it was and
      every later line behind n more spaces. */
  ghost predicate Shifted(lines: seq<string>, out: seq<string>, n: nat)
  {
    && |out| == |lines| && |lines| >= 1
    && out[0] == lines[0]
    && forall i :: 1 <= i < |lines| ==> out[i] == Spaces(n) + lines[i]
  }

  lemma ShiftedByNothing(lines: seq<string>)
    requires |lines| >= 1
    ensures Shifted(lines, lines, 0)
  {
    forall i | 1 <= i < |lines| ensures lines[i] == Spaces(0) + lines[i] {
      assert Spaces(0) + lines[i] == lines[i];
    }
  }

  lemma {:induction false} SpacesAppend(n: nat, m: nat)
    ensures Spaces(n + m) == Spaces(m) + Spaces(n)
  {
    if m == 0 {
      assert Spaces(m) + Spaces(n) == Spaces(n);
    } else {
      SpacesAppend(n, m - 1);
      assert Spaces(n + m) == " " + Spaces(n + (m - 1));
    }
  }

  /** Shifting by n and then by m shifts by n + m. */
  lemma ShiftedTrans(a: seq<string>, b: seq<string>, c: seq<string>, n: nat, m: nat)
    requires Shifted(a, b, n) && Shifted(b, c, m)
    ensures Shifted(a, c, n + m)
  {
    SpacesAppend(n, m);
    forall i | 1 <= i < |a| ensures c[i] == Spaces(n + m) + a[i] {
      assert c[i] == Spaces(m) + (Spaces(n) + a[i]);
    }
  }

  /** One re-indentation shifts the later lines by two spaces. */
  lemma IndentShifted(s: string)
    ensures Shifted(Split(s), Split(Indent(s)), 2)
  {
    IndentLines(s);
    assert Spaces(2) == "  ";
  }

  /** Nested descriptions: after depth levels, every line but the first
      carries exactly 2 * depth more leading spaces. */
  lemma {:induction false} IndentNested(s: string, depth: nat)
    ensures Shifted(Split(s), Split(IndentTimes(s, depth)), 2 * depth)
  {
    if depth == 0 {
      ShiftedByNothing(Split(s));
    } else {
      var prev := IndentTimes(s, depth - 1);
      IndentNested(s, depth - 1);
      IndentShifted(prev);
      ShiftedTrans(Split(s), Split(prev), Split(Indent(prev)), 2 * (depth - 1), 2);
    }
  }

  // ---------------------------------------------------------------------
  // Case conversion

  /** LOWER_CAMEL to UPPER_CAMEL keeps the length and every character but
      the first, which becomes its ASCII capital. */
  lemma UpperCamelShape(s: string)
    requires |s| > 0
    ensures |UpperCamel(s)| == |s|
    ensures UpperCamel(s)[1..] == s[1..]
    ensures 'a' <= s[0] <= 'z' ==> UpperCamel(s)[0] as int - 'A' as int == s[0] as int - 'a' as int
    ensures !('a' <= s[0] <= 'z') ==> UpperCamel(s) == s
  {
    if !('a' <= s[0] <= 'z') {
      assert [s[0]] + s[1..] == s;
    }
  }

  /** Converting a lower-camel name to upper camel and back gives it back. */
  lemma CamelRoundTrip(s: string)
    ensures IsLowerCamel(s) ==> LowerCamel(UpperCamel(s)) == s
  {
    if |s| > 0 && IsLowerCamel(s) {
      assert UpperCamel(s)[1..] == s[1..];
      assert [s[0]] + s[1..] == s;
    }
  }
}

/** The few Python string operations the ER7 decoder relies on, written out:
    `str.split(sep)` with a one-character separator, `sep.join`, `strip()`,
    `strip("\r")`, slicing with clamped bounds, `startswith` and the decimal
    rendering used by `"{0}_{1}".format(prefix, index + 1)`. */
module Text {

  /** The characters Python's `str.strip()` and the regular expression class
      `\S` treat as whitespace for byte strings. */
  predicate IsSpace(c: char) {
    c == ' ' || c == '\t' || c == '\n' || c == '\r' || c == '\U{000B}' || c == '\U{000C}'
  }

  /** A string whose `strip()` is empty, i.e. one Python treats as false after stripping. */
  predicate Blank(s: string) {
    forall i :: 0 <= i < |s| ==> IsSpace(s[i])
  }

  /** `s.split(sep)`: consecutive separators give empty pieces, and there is
      always at least one piece. */
  function Split(s: string, sep: char): (r: seq<string>)
    ensures |r| >= 1
    ensures forall k :: 0 <= k < |r| ==> sep !in r[k]
    decreases |s|
  {
    if |s| == 0 then [""]
    else
      var rest := Split(s[1..], sep);
      if s[0] == sep then [""] + rest else [[s[0]] + rest[0]] + rest[1..]
  }

  /** `sep.join(parts)`. */
  function Join(parts: seq<string>, sep: char): string
  {
    if |parts| == 0 then ""
    else if |parts| == 1 then parts[0]
    else parts[0] + [sep] + Join(parts[1..], sep)
  }

  /** Splitting loses nothing: joining the pieces gives the text back. */
  lemma {:induction false} JoinSplit(s: string, sep: char)
    ensures Join(Split(s, sep), sep) == s
    decreases |s|
  {
    if |s| > 0 {
      JoinSplit(s[1..], sep);
      var rest := Split(s[1..], sep);
      if s[0] == sep {
        assert Split(s, sep) == [""] + rest;
        assert ([""] + rest)[1..] == rest;
      } else {
        var r := Split(s, sep);
        assert r == [[s[0]] + rest[0]] + rest[1..];
        if |rest| == 1 {
          assert r == [[s[0]] + rest[0]];
        } else {
          assert r[1..] == rest[1..];
          assert Join(rest, sep) == rest[0] + [sep] + Join(rest[1..], sep);
        }
      }
    }
  }

  /** The other direction: pieces free of the separator come back from a split of their join. */
  lemma {:induction false} SplitJoin(parts: seq<string>, sep: char)
    requires |parts| >= 1
    requires forall k :: 0 <= k < |parts| ==> sep !in parts[k]
    ensures Split(Join(parts, sep), sep) == parts
    decreases |parts|, |parts[0]|
  {
    var p := parts[0];
    if |parts| == 1 {
      SplitNoSep(p, sep);
    } else if |p| == 0 {
      SplitJoin(parts[1..], sep);
      var j := Join(parts, sep);
      assert j == [sep] + Join(parts[1..], sep);
      assert j[1..] == Join(parts[1..], sep);
      assert parts == [""] + parts[1..];
    } else {
      var shorter := [p[1..]] + parts[1..];
      SplitJoin(shorter, sep);
      var j := Join(parts, sep);
      assert Join(shorter, sep) == p[1..] + [sep] + Join(parts[1..], sep);
      assert j == [p[0]] + Join(shorter, sep);
      assert j[1..] == Join(shorter, sep);
      assert p == [p[0]] + p[1..];
      assert parts == [[p[0]] + shorter[0]] + shorter[1..];
    }
  }

  /** A text without the separator is a single piece. */
  lemma {:induction false} SplitNoSep(s: string, sep: char)
    requires sep !in s
    ensures Split(s, sep) == [s]
    decreases |s|
  {
    if |s| > 0 {
      assert sep !in s[1..];
      SplitNoSep(s[1..], sep);
      assert [s[0]] + s[1..] == s;
    }
  }

  /** A text that contains the separator splits into at least two pieces. */
  lemma {:induction false} SplitHasTwo(s: string, sep: char)
    requires sep in s
    ensures |Split(s, sep)| >= 2
    decreases |s|
  {
    if s[0] != sep {
      SplitHasTwo(s[1..], sep);
    }
  }

  /** The first piece of a split starts with any separator-free prefix of the text. */
  lemma {:induction false} SplitFirstPrefix(s: string, sep: char, n: nat)
    requires n <= |s|
    requires sep !in s[..n]
    ensures n <= |Split(s, sep)[0]| && Split(s, sep)[0][..n] == s[..n]
    decreases n
  {
    if n > 0 {
      assert s[0] == s[..n][0];
      assert s[1..][..n - 1] == s[1..n];
      assert sep !in s[1..n] by {
        forall i | 0 <= i < n - 1 ensures s[1..n][i] != sep { assert s[1..n][i] == s[..n][i + 1]; }
      }
      SplitFirstPrefix(s[1..], sep, n - 1);
      var rest := Split(s[1..], sep);
      assert Split(s, sep)[0] == [s[0]] + rest[0];
      assert ([s[0]] + rest[0])[..n] == [s[0]] + rest[0][..n - 1];
      assert s[..n] == [s[0]] + s[1..n];
    }
  }

  /** Python's `text[:n]`: the first `n` characters, or all of a shorter text. */
  function Take(s: string, n: nat): (r: string)
    ensures |r| == if |s| <= n then |s| else n
    ensures r == s[..|r|]
  {
    if |s| <= n then s else s[..n]
  }

  /** Python's `text[n:]`: what follows the first `n` characters, empty for a shorter text. */
  function Drop(s: string, n: nat): (r: string)
    ensures |r| == if |s| <= n then 0 else |s| - n
    ensures r == s[|s| - |r|..]
  {
    if |s| <= n then "" else s[n..]
  }

  /** Python's `s.startswith(p)`. */
  predicate StartsWith(s: string, p: string) {
    |p| <= |s| && s[..|p|] == p
  }

  /** Removes the leading characters `drop` accepts (`lstrip`). */
  function LStripBy(s: string, drop: char -> bool): string
    decreases |s|
  {
    if |s| > 0 && drop(s[0]) then LStripBy(s[1..], drop) else s
  }

  /** `lstrip` keeps a suffix, drops only characters it accepts, and stops at the first one it does not. */
  lemma {:induction false} LStripByShape(s: string, drop: char -> bool)
    ensures var r := LStripBy(s, drop);
      && |r| <= |s| && r == s[|s| - |r|..]
      && (forall i :: 0 <= i < |s| - |r| ==> drop(s[i]))
      && (|r| > 0 ==> !drop(r[0]))
    decreases |s|
  {
    if |s| > 0 && drop(s[0]) {
      LStripByShape(s[1..], drop);
      var r := LStripBy(s, drop);
      forall i | 0 < i < |s| - |r| ensures drop(s[i]) {
        assert s[i] == s[1..][i - 1];
      }
    }
  }

  /** Removes the trailing characters `drop` accepts (`rstrip`). */
  function RStripBy(s: string, drop: char -> bool): string
    decreases |s|
  {
    if |s| > 0 && drop(s[|s| - 1]) then RStripBy(s[..|s| - 1], drop) else s
  }

  /** `rstrip` keeps a prefix, drops only characters it accepts, and stops at the last one it does not. */
  lemma {:induction false} RStripByShape(s: string, drop: char -> bool)
    ensures var r := RStripBy(s, drop);
      && |r| <= |s| && r == s[..|r|]
      && (forall i :: |r| <= i < |s| ==> drop(s[i]))
      && (|r| > 0 ==> !drop(r[|r| - 1]))
    decreases |s|
  {
    if |s| > 0 && drop(s[|s| - 1]) {
      RStripByShape(s[..|s| - 1], drop);
      var r := RStripBy(s, drop);
      forall i | |r| <= i < |s| - 1 ensures drop(s[i]) {
        assert s[i] == s[..|s| - 1][i];
      }
    }
  }

  /** `s.lstrip()`. */
  function LStrip(s: string): string {
    LStripBy(s, IsSpace)
  }

  /** `s.strip()`. */
  function Strip(s: string): string {
    RStripBy(LStripBy(s, IsSpace), IsSpace)
  }

  predicate IsCarriageReturn(c: char) {
    c == '\r'
  }

  /** `s.strip("\r")`. */
  function StripCR(s: string): string {
    RStripBy(LStripBy(s, IsCarriageReturn), IsCarriageReturn)
  }

  /** `if s.strip():` is false exactly for the texts made only of whitespace. */
  lemma StripEmptyIff(s: string)
    ensures Strip(s) == "" <==> Blank(s)
  {
    var l := LStripBy(s, IsSpace);
    LStripByShape(s, IsSpace);
    RStripByShape(l, IsSpace);
    if Strip(s) == "" {
      assert l == "";
    } else {
      var r := Strip(s);
      assert !IsSpace(r[0]);
      assert r[0] == l[0] == s[|s| - |l|];
    }
  }

  function Digit(d: nat): char
    requires d < 10
  {
    "0123456789"[d]
  }

  /** `str(n)` for a natural number. */
  function NatToString(n: nat): (r: string)
    ensures |r| >= 1
    ensures n >= 10 ==> |r| >= 2
    ensures forall i :: 0 <= i < |r| ==> '0' <= r[i] <= '9'
  {
    if n < 10 then [Digit(n)] else NatToString(n / 10) + [Digit(n % 10)]
  }

  /** Different numbers are rendered differently, so positional names identify positions. */
  lemma {:induction false} NatToStringInjective(a: nat, b: nat)
    requires NatToString(a) == NatToString(b)
    ensures a == b
  {
    if a >= 10 && b >= 10 {
      var sa, sb := NatToString(a), NatToString(b);
      assert sa[|sa| - 1] == Digit(a % 10) && sb[|sb| - 1] == Digit(b % 10);
      assert sa[..|sa| - 1] == NatToString(a / 10);
      assert sb[..|sb| - 1] == NatToString(b / 10);
      NatToStringInjective(a / 10, b / 10);
    }
  }

  /** The positional name `"{prefix}_{i+1}"` given to the child at 0-based position `i`. */
  function Positional(prefix: string, i: nat): string {
    prefix + "_" + NatToString(i + 1)
  }

  /** Positional names under one prefix are distinct. */
  lemma PositionalInjective(prefix: string, i: nat, j: nat)
    requires Positional(prefix, i) == Positional(prefix, j)
    ensures i == j
  {
    var a, b := Positional(prefix, i), Positional(prefix, j);
    assert a[|prefix| + 1..] == NatToString(i + 1);
    assert b[|prefix| + 1..] == NatToString(j + 1);
    NatToStringInjective(i + 1, j + 1);
  }

  /** Whether a positional name starts with `VARIES_` depends on its prefix
      alone: `_` sits at position 6 of `VARIES_` and nowhere earlier. */
  lemma PositionalVaries(prefix: string, i: nat)
    ensures StartsWith(Positional(prefix, i), "VARIES_") <==> StartsWith(prefix + "_", "VARIES_")
  {
    var s := Positional(prefix, i);
    assert s[..|prefix| + 1] == prefix + "_";
    if |prefix| >= 6 {
      assert s[..7] == (prefix + "_")[..7];
    } else if |s| >= 7 {
      assert s[|prefix|] == '_';
      assert "VARIES_"[|prefix|] != '_';
    }
  }
}

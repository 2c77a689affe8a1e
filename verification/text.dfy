/** String primitives with Python's meaning, on `string` (a sequence of
    Unicode scalar values): whitespace, prefixes and suffixes, substring
    search, ASCII upper-casing, the `MP4` -> `mp4` replacement, `strip()`,
    and newline-terminated lines. */
module Text {

  /** Python's `str.isspace()`, which is also the set the regular-expression
      class `\s` and `str.strip()` use on text. */
  predicate IsSpace(c: char) {
    var k := c as int;
    || (0x09 <= k <= 0x0D) || (0x1C <= k <= 0x20) || k == 0x85 || k == 0xA0
    || k == 0x1680 || (0x2000 <= k <= 0x200A) || k == 0x2028 || k == 0x2029
    || k == 0x202F || k == 0x205F || k == 0x3000
  }

  predicate NoSpace(s: string) {
    forall i :: 0 <= i < |s| ==> !IsSpace(s[i])
  }

  /** `re.sub(r'\s+', '', s)`: every whitespace character goes, every other
      character stays, and no character is added. */
  function RemoveWhitespace(s: string): (r: string)
    ensures NoSpace(r)
    ensures NoSpace(s) ==> r == s
  {
    if |s| == 0 then ""
    else if IsSpace(s[0]) then RemoveWhitespace(s[1..])
    else [s[0]] + RemoveWhitespace(s[1..])
  }

  /** Every non-whitespace character keeps its number of occurrences, and
      no whitespace character is left. */
  lemma {:induction false} RemoveWhitespaceCounts(s: string)
    ensures forall c :: !IsSpace(c) ==> multiset(RemoveWhitespace(s))[c] == multiset(s)[c]
    ensures forall c :: IsSpace(c) ==> multiset(RemoveWhitespace(s))[c] == 0
    decreases |s|
  {
    if |s| > 0 {
      RemoveWhitespaceCounts(s[1..]);
      assert s == [s[0]] + s[1..];
    }
  }

  /** Removal works character by character, so it distributes over
      concatenation: the kept characters stay in their original order. */
  lemma {:induction false} RemoveWhitespaceAppend(a: string, b: string)
    ensures RemoveWhitespace(a + b) == RemoveWhitespace(a) + RemoveWhitespace(b)
    decreases |a|
  {
    if |a| == 0 {
      assert a + b == b;
    } else {
      assert (a + b)[0] == a[0];
      assert (a + b)[1..] == a[1..] + b;
      RemoveWhitespaceAppend(a[1..], b);
    }
  }

  /** Normalising a normalised name changes nothing. */
  lemma RemoveWhitespaceIdempotent(s: string)
    ensures RemoveWhitespace(RemoveWhitespace(s)) == RemoveWhitespace(s)
  {
  }

  predicate StartsWith(s: string, p: string) {
    |p| <= |s| && s[..|p|] == p
  }

  predicate EndsWith(s: string, p: string) {
    |p| <= |s| && s[|s| - |p|..] == p
  }

  /** A string starts with its prefix's first character. */
  lemma StartsWithFirst(s: string, p: string)
    requires |p| > 0
    ensures StartsWith(s, p) ==> |s| > 0 && s[0] == p[0]
  {
    if StartsWith(s, p) {
      assert s[..|p|][0] == s[0];
    }
  }

  /** A suffix without whitespace survives whitespace removal. */
  lemma RemoveWhitespaceKeepsSuffix(s: string, suffix: string)
    requires EndsWith(s, suffix) && NoSpace(suffix)
    ensures EndsWith(RemoveWhitespace(s), suffix)
  {
    var head := s[..|s| - |suffix|];
    assert s == head + suffix;
    RemoveWhitespaceAppend(head, suffix);
    var r := RemoveWhitespace(s);
    assert r == RemoveWhitespace(head) + suffix;
    assert r[|r| - |suffix|..] == suffix;
  }

  /** Python's `p in s` for strings. */
  predicate Contains(s: string, p: string)
    decreases |s|
  {
    StartsWith(s, p) || (|s| > 0 && Contains(s[1..], p))
  }

  /** `str.upper()` on one character; only ASCII letters are mapped. */
  function UpperChar(c: char): char {
    if 'a' <= c <= 'z' then (c as int - 32) as char else c
  }

  /** An ASCII lower-case letter. */
  predicate IsLower(c: char) {
    'a' <= c <= 'z'
  }

  /** `str.upper()`: every lower-case letter becomes its capital, 32 code
      points below it, so none is left; every other character stays where it was. */
  function Upper(s: string): (r: string)
    ensures |r| == |s|
    ensures forall i :: 0 <= i < |s| && IsLower(s[i]) ==> r[i] as int == s[i] as int - 32 && 'A' <= r[i] <= 'Z'
    ensures forall i :: 0 <= i < |r| ==> !IsLower(r[i])
    ensures forall i :: 0 <= i < |s| && !IsLower(s[i]) ==> r[i] == s[i]
  {
    seq(|s|, i requires 0 <= i < |s| => UpperChar(s[i]))
  }

  /** Upper-casing twice is upper-casing once. */
  lemma UpperIdempotent(s: string)
    ensures Upper(Upper(s)) == Upper(s)
  {
  }

  /** Upper-casing distributes over concatenation. */
  lemma UpperAppend(a: string, b: string)
    ensures Upper(a + b) == Upper(a) + Upper(b)
  {
  }

  /** `s` starts with the three characters `MP4`. */
  predicate Mp4At(s: string) {
    |s| >= 3 && s[0] == 'M' && s[1] == 'P' && s[2] == '4'
  }

  lemma Mp4AtStartsWith(s: string)
    ensures Mp4At(s) <==> StartsWith(s, "MP4")
  {
    if |s| >= 3 {
      assert s[..3] == [s[0], s[1], s[2]];
    }
  }

  /** `s.replace('MP4', 'mp4')`: scanned left to right, every occurrence
      that does not overlap an earlier one is replaced. */
  function LowerMp4(s: string): (r: string)
    ensures |r| == |s|
    decreases |s|
  {
    if |s| == 0 then ""
    else if Mp4At(s) then "mp4" + LowerMp4(s[3..])
    else [s[0]] + LowerMp4(s[1..])
  }

  /** The replacement only changes the case of letters. */
  lemma {:induction false} LowerMp4Upper(s: string)
    ensures forall i :: 0 <= i < |s| ==> UpperChar(LowerMp4(s)[i]) == UpperChar(s[i])
    decreases |s|
  {
    var r := LowerMp4(s);
    if Mp4At(s) {
      LowerMp4Upper(s[3..]);
      forall i | 0 <= i < |s|
        ensures UpperChar(r[i]) == UpperChar(s[i])
      {
        if i >= 3 {
          assert r[i] == LowerMp4(s[3..])[i - 3];
        }
      }
    } else if |s| > 0 {
      LowerMp4Upper(s[1..]);
      forall i | 0 <= i < |s|
        ensures UpperChar(r[i]) == UpperChar(s[i])
      {
        if i >= 1 {
          assert r[i] == LowerMp4(s[1..])[i - 1];
        }
      }
    }
  }

  /** Without an occurrence there is nothing to replace. */
  lemma {:induction false} LowerMp4Unchanged(s: string)
    requires !Contains(s, "MP4")
    ensures LowerMp4(s) == s
    decreases |s|
  {
    Mp4AtStartsWith(s);
    if |s| > 0 {
      LowerMp4Unchanged(s[1..]);
      assert s == [s[0]] + s[1..];
    }
  }

  /** The first character of the replacement result. */
  lemma LowerMp4Head(s: string)
    requires |s| > 0
    ensures LowerMp4(s)[0] == if Mp4At(s) then 'm' else s[0]
  {
  }

  lemma ContainsOfCons(c: char, t: string, p: string)
    requires |p| > 0
    ensures Contains([c] + t, p) <==> StartsWith([c] + t, p) || Contains(t, p)
  {
    assert ([c] + t)[1..] == t;
  }

  /** After the replacement no `MP4` is left, not even across a boundary. */
  lemma {:induction false} LowerMp4Complete(s: string)
    ensures !Contains(LowerMp4(s), "MP4")
    decreases |s|
  {
    var r := LowerMp4(s);
    if |s| == 0 {
      assert !StartsWith(r, "MP4");
    } else if Mp4At(s) {
      var t := LowerMp4(s[3..]);
      LowerMp4Complete(s[3..]);
      assert r == ['m'] + (['p'] + (['4'] + t));
      Mp4AtStartsWith(['m'] + (['p'] + (['4'] + t)));
      Mp4AtStartsWith(['p'] + (['4'] + t));
      Mp4AtStartsWith(['4'] + t);
      ContainsOfCons('4', t, "MP4");
      ContainsOfCons('p', ['4'] + t, "MP4");
      ContainsOfCons('m', ['p'] + (['4'] + t), "MP4");
    } else {
      var t := LowerMp4(s[1..]);
      LowerMp4Complete(s[1..]);
      assert r == [s[0]] + t;
      ContainsOfCons(s[0], t, "MP4");
      KeptHeadStartsNoMp4(s);
      Mp4AtStartsWith([s[0]] + t);
    }
  }

  /** When `s` does not start with `MP4`, neither does its replacement. */
  lemma KeptHeadStartsNoMp4(s: string)
    requires |s| > 0 && !Mp4At(s)
    ensures !Mp4At([s[0]] + LowerMp4(s[1..]))
  {
    var t := LowerMp4(s[1..]);
    if s[0] == 'M' && |t| >= 2 {
      LowerMp4Head(s[1..]);
      if t[0] == 'P' {
        assert s[1] == 'P';
        assert s[1..][1..] == s[2..];
        LowerMp4Head(s[2..]);
        assert t[1] == LowerMp4(s[2..])[0];
      }
    }
  }

  /** No occurrence of `MP4` spans a boundary in front of a character that
      cannot continue one. */
  lemma {:induction false} LowerMp4Append(a: string, b: string)
    requires |b| > 0 && b[0] != 'P' && b[0] != '4'
    ensures LowerMp4(a + b) == LowerMp4(a) + LowerMp4(b)
    decreases |a|
  {
    var ab := a + b;
    if |a| == 0 {
      assert ab == b;
    } else if Mp4At(a) {
      assert Mp4At(ab);
      assert ab[3..] == a[3..] + b;
      LowerMp4Append(a[3..], b);
    } else {
      assert ab[1..] == a[1..] + b;
      assert !Mp4At(ab) by {
        if |a| == 1 {
          assert ab[1] == b[0];
        } else if |a| == 2 {
          assert ab[1] == a[1] && ab[2] == b[0];
        } else {
          assert ab[1] == a[1] && ab[2] == a[2];
        }
      }
      LowerMp4Append(a[1..], b);
    }
  }

  function TrimStart(s: string): string
    decreases |s|
  {
    if |s| > 0 && IsSpace(s[0]) then TrimStart(s[1..]) else s
  }

  /** `lstrip()` drops exactly the leading run of whitespace. */
  lemma {:induction false} TrimStartShape(s: string)
    ensures var r := TrimStart(s);
      && |r| <= |s| && r == s[|s| - |r|..]
      && (|r| > 0 ==> !IsSpace(r[0]))
      && forall i :: 0 <= i < |s| - |r| ==> IsSpace(s[i])
    decreases |s|
  {
    if |s| > 0 && IsSpace(s[0]) {
      TrimStartShape(s[1..]);
      var r := TrimStart(s);
      assert s[1..][|s| - 1 - |r|..] == s[|s| - |r|..];
      forall i | 0 < i < |s| - |r|
        ensures IsSpace(s[i])
      {
        assert s[i] == s[1..][i - 1];
      }
    }
  }

  function TrimEnd(s: string): string
    decreases |s|
  {
    if |s| > 0 && IsSpace(s[|s| - 1]) then TrimEnd(s[..|s| - 1]) else s
  }

  /** `rstrip()` drops exactly the trailing run of whitespace. */
  lemma {:induction false} TrimEndShape(s: string)
    ensures var r := TrimEnd(s);
      && |r| <= |s| && r == s[..|r|]
      && (|r| > 0 ==> !IsSpace(r[|r| - 1]))
      && forall i :: |r| <= i < |s| ==> IsSpace(s[i])
    decreases |s|
  {
    if |s| > 0 && IsSpace(s[|s| - 1]) {
      TrimEndShape(s[..|s| - 1]);
      var r := TrimEnd(s);
      assert s[..|s| - 1][..|r|] == s[..|r|];
      forall i | |r| <= i < |s| - 1
        ensures IsSpace(s[i])
      {
        assert s[i] == s[..|s| - 1][i];
      }
    }
  }

  /** `s.strip()`. */
  function Trim(s: string): (r: string)
  {
    TrimEnd(TrimStart(s))
  }

  /** `s.strip()` is empty exactly when `s` is whitespace only. */
  lemma TrimEmpty(s: string)
    ensures Trim(s) == "" <==> forall i :: 0 <= i < |s| ==> IsSpace(s[i])
  {
    var a := TrimStart(s);
    TrimStartShape(s);
    TrimEndShape(a);
  }

  /** `strip()` keeps a contiguous piece without whitespace at either end. */
  lemma TrimShape(s: string)
    ensures exists i, j :: 0 <= i <= j <= |s| && Trim(s) == s[i..j]
    ensures |Trim(s)| > 0 ==> !IsSpace(Trim(s)[0]) && !IsSpace(Trim(s)[|Trim(s)| - 1])
  {
    var a := TrimStart(s);
    var r := TrimEnd(a);
    TrimStartShape(s);
    TrimEndShape(a);
    var i := |s| - |a|;
    assert r == s[i..i + |r|];
    if |r| > 0 {
      assert r[0] == a[0];
    }
  }

  /** A line read with its terminator strips back to its text when that
      text has no whitespace at either end. */
  lemma TrimLine(x: string)
    requires |x| > 0 && !IsSpace(x[0]) && !IsSpace(x[|x| - 1])
    ensures Trim(x + "\n") == x
  {
    var l := x + "\n";
    assert TrimStart(l) == l;
    assert l[..|l| - 1] == x;
    assert TrimEnd(l) == TrimEnd(x);
  }

  /** A text file written as one `line + "\n"` per line. */
  function JoinLines(lines: seq<string>): (text: string)
  {
    if |lines| == 0 then "" else lines[0] + "\n" + JoinLines(lines[1..])
  }

  lemma {:induction false} JoinLinesAppend(a: seq<string>, b: seq<string>)
    ensures JoinLines(a + b) == JoinLines(a) + JoinLines(b)
    decreases |a|
  {
    if |a| == 0 {
      assert a + b == b;
    } else {
      assert (a + b)[0] == a[0];
      assert (a + b)[1..] == a[1..] + b;
      JoinLinesAppend(a[1..], b);
    }
  }

  /** Index of the first newline, or the length when there is none. */
  function LineEnd(s: string): (k: nat)
    ensures k <= |s|
    ensures forall i :: 0 <= i < k ==> s[i] != '\n'
    ensures k < |s| ==> s[k] == '\n'
  {
    if |s| == 0 || s[0] == '\n' then 0 else 1 + LineEnd(s[1..])
  }

  /** Reads a text back as its lines, without terminators; a final piece
      without a newline is a line too. */
  function SplitLines(s: string): seq<string>
    decreases |s|
  {
    if |s| == 0 then []
    else
      var k := LineEnd(s);
      if k == |s| then [s] else [s[..k]] + SplitLines(s[k + 1..])
  }

  predicate NoNewline(line: string) {
    forall i :: 0 <= i < |line| ==> line[i] != '\n'
  }

  /** Writing lines and reading them back is the identity, as long as no
      line holds a newline of its own. */
  lemma {:induction false} SplitJoinLines(lines: seq<string>)
    requires forall k :: 0 <= k < |lines| ==> NoNewline(lines[k])
    ensures SplitLines(JoinLines(lines)) == lines
    decreases |lines|
  {
    if |lines| > 0 {
      var l, rest := lines[0], JoinLines(lines[1..]);
      assert JoinLines(lines) == l + "\n" + rest;
      FirstLine(l, rest);
      SplitJoinLines(lines[1..]);
    }
  }

  /** A line without a newline, then a newline: reading stops right there. */
  lemma FirstLine(l: string, rest: string)
    requires NoNewline(l)
    ensures SplitLines(l + "\n" + rest) == [l] + SplitLines(rest)
  {
    var s := l + "\n" + rest;
    assert s[|l|] == '\n';
    assert forall i :: 0 <= i < |l| ==> s[i] == l[i];
    assert LineEnd(s) == |l|;
    assert s[..|l|] == l;
    assert s[|l| + 1..] == rest;
  }
}

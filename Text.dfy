/**
 * The string primitives the pages rely on: `String.prototype.trim`, the
 * falsiness of the empty string, `split('.')`, and the ASCII case folding
 * of a case-insensitive regular expression.
 */
module Text {

  /** Characters removed by `String.prototype.trim`: the ECMAScript
      WhiteSpace and LineTerminator code points. */
  predicate IsWhitespace(c: char) {
    || c == ' ' || c == '\t' || c == '\n' || c == '\U{B}' || c == '\U{C}' || c == '\r'
    || c == '\U{A0}' || c == '\U{1680}' || ('\U{2000}' <= c <= '\U{200A}')
    || c == '\U{2028}' || c == '\U{2029}' || c == '\U{202F}' || c == '\U{205F}'
    || c == '\U{3000}' || c == '\U{FEFF}'
  }

  /** Every character is whitespace (vacuously so for ""). */
  predicate AllWhitespace(s: string) {
    forall i :: 0 <= i < |s| ==> IsWhitespace(s[i])
  }

  /** Leading whitespace removed: the longest suffix of `s` that does not
      start with whitespace, everything before it being whitespace. */
  function TrimStart(s: string): (r: string)
    ensures |r| <= |s| && r == s[|s| - |r|..]
    ensures forall i :: 0 <= i < |s| - |r| ==> IsWhitespace(s[i])
    ensures r != [] ==> !IsWhitespace(r[0])
  {
    if |s| > 0 && IsWhitespace(s[0]) then TrimStart(s[1..]) else s
  }

  /** Trailing whitespace removed: the longest prefix of `s` that does not
      end with whitespace, everything after it being whitespace. */
  function TrimEnd(s: string): (r: string)
    ensures |r| <= |s| && r == s[..|r|]
    ensures forall i :: |r| <= i < |s| ==> IsWhitespace(s[i])
    ensures r != [] ==> !IsWhitespace(r[|r| - 1])
  {
    if |s| > 0 && IsWhitespace(s[|s| - 1]) then TrimEnd(s[..|s| - 1]) else s
  }

  /** `s.trim()`: leading and trailing whitespace removed (`TrimEnds`,
      `TrimSlice` and `TrimSurround` say what is left). */
  function Trim(s: string): string {
    TrimEnd(TrimStart(s))
  }

  /** `s.trim()` is the slice of `s` that starts after its leading
      whitespace. */
  lemma TrimSlice(s: string)
    ensures var i := |s| - |TrimStart(s)|;
      i + |Trim(s)| <= |s| && Trim(s) == s[i..i + |Trim(s)|]
  {
    var t := TrimStart(s);
    InnerSlice(s, t, TrimEnd(t), |s| - |t|);
  }

  /** Only whitespace surrounds that slice. */
  lemma TrimSurround(s: string)
    ensures var i := |s| - |TrimStart(s)|;
      && (forall k :: 0 <= k < i ==> IsWhitespace(s[k]))
      && (forall k :: i + |Trim(s)| <= k < |s| ==> IsWhitespace(s[k]))
  {
    var t := TrimStart(s);
    InnerSlice(s, t, TrimEnd(t), |s| - |t|);
  }

  /** A prefix `r` of the suffix `t == s[i..]` is the slice `s[i..i + |r|]`,
      and what follows it in `t` follows it in `s`. */
  lemma InnerSlice(s: string, t: string, r: string, i: nat)
    requires i <= |s| && t == s[i..]
    requires |r| <= |t| && r == t[..|r|]
    requires forall j :: |r| <= j < |t| ==> IsWhitespace(t[j])
    ensures r == s[i..i + |r|]
    ensures forall k :: i + |r| <= k < |s| ==> IsWhitespace(s[k])
  {
    forall k | i + |r| <= k < |s| ensures IsWhitespace(s[k]) {
      assert s[k] == t[k - i];
    }
  }

  /** `s.trim()` is empty exactly when every character is whitespace, and
      otherwise neither starts nor ends with whitespace. */
  lemma TrimEnds(s: string)
    ensures var r := Trim(s);
      && (r == "" <==> AllWhitespace(s))
      && (r != "" ==> !IsWhitespace(r[0]) && !IsWhitespace(r[|r| - 1]))
  {
    var t := TrimStart(s);
    var r := TrimEnd(t);
    var i := |s| - |t|;
    if r == "" {
      assert t == "";
    } else {
      assert r[0] == t[0];
      assert t != "" && !IsWhitespace(s[i]);
    }
  }

  /** `!s.trim()`: the trimmed string is empty, hence falsy; that is, every
      character is whitespace. */
  predicate IsBlank(s: string)
    ensures IsBlank(s) <==> AllWhitespace(s)
  {
    TrimEnds(s);
    Trim(s) == ""
  }

  /** `s.split(sep)`: the maximal runs of non-`sep` characters, in order,
      one more than the number of separators (so never empty). */
  function Split(s: string, sep: char): (parts: seq<string>)
    ensures |parts| >= 1
    ensures forall k :: 0 <= k < |parts| ==> sep !in parts[k]
    ensures sep !in s ==> parts == [s]
    ensures sep in s ==> |parts| > 1
    decreases |s|
  {
    if |s| == 0 then [""]
    else if s[0] == sep then [""] + Split(s[1..], sep)
    else
      var rest := Split(s[1..], sep);
      assert s == [s[0]] + s[1..];
      assert sep in s ==> sep in s[1..];
      [[s[0]] + rest[0]] + rest[1..]
  }

  /** `parts.join(sep)`. */
  function Join(parts: seq<string>, sep: char): string
    requires |parts| >= 1
  {
    if |parts| == 1 then parts[0] else parts[0] + [sep] + Join(parts[1..], sep)
  }

  /** Prefixing a character to the first part prefixes it to the join. */
  lemma JoinPrefixFirst(c: char, parts: seq<string>, sep: char)
    requires |parts| >= 1
    ensures Join([[c] + parts[0]] + parts[1..], sep) == [c] + Join(parts, sep)
  {
    var parts' := [[c] + parts[0]] + parts[1..];
    if |parts| > 1 {
      assert parts'[1..] == parts[1..];
    }
  }

  /** Splitting loses nothing: joining the parts back gives the string. */
  lemma {:induction false} JoinSplit(s: string, sep: char)
    ensures Join(Split(s, sep), sep) == s
    decreases |s|
  {
    if |s| == 0 {
    } else if s[0] == sep {
      JoinSplit(s[1..], sep);
      assert s == [sep] + s[1..];
    } else {
      JoinSplit(s[1..], sep);
      JoinPrefixFirst(s[0], Split(s[1..], sep), sep);
      assert s == [s[0]] + s[1..];
    }
  }

  /** The last part of splitting `s` in terms of splitting its tail. */
  lemma SplitLastCons(s: string, sep: char)
    requires |s| > 0
    ensures var parts, rest := Split(s, sep), Split(s[1..], sep);
      parts[|parts| - 1] == if s[0] == sep || |rest| > 1 then rest[|rest| - 1] else s
  {
    var parts, rest := Split(s, sep), Split(s[1..], sep);
    if s[0] == sep {
      assert parts == [""] + rest;
      assert parts[|parts| - 1] == rest[|rest| - 1];
    } else {
      assert parts == [[s[0]] + rest[0]] + rest[1..];
      assert |parts| == |rest|;
      if |rest| == 1 {
        assert sep !in s[1..];
        assert rest == [s[1..]];
        assert s == [s[0]] + s[1..];
        assert parts[0] == s;
      } else {
        assert parts[|parts| - 1] == rest[1..][|rest| - 2];
      }
    }
  }

  /** The last part of `s.split(sep)` is the text after the last `sep`,
      or the whole of `s` when `sep` does not occur in it. */
  lemma {:induction false} LastPartOfSplit(s: string, sep: char)
    ensures var r := Split(s, sep)[|Split(s, sep)| - 1];
      && |r| <= |s| && r == s[|s| - |r|..]
      && (sep !in s ==> r == s)
      && (sep in s ==> s[|s| - |r| - 1] == sep)
    decreases |s|
  {
    if |s| > 0 {
      var tail := s[1..];
      var rest := Split(tail, sep);
      var r' := rest[|rest| - 1];
      SplitLastCons(s, sep);
      if s[0] == sep || |rest| > 1 {
        LastPartOfSplit(tail, sep);
        assert tail[|tail| - |r'|..] == s[|s| - |r'|..];
        assert s[0] in s;
        if sep in tail {
          assert tail[|tail| - |r'| - 1] == s[|s| - |r'| - 1];
        }
      }
    }
  }

  /** ASCII upper-case letters lowered; every other character kept. This is
      all the case folding a non-Unicode `/…/i` regular expression does when
      its pattern is made of ASCII letters and digits. */
  function ToLowerAscii(c: char): char {
    if 'A' <= c <= 'Z' then (c as int + 32) as char else c
  }

  function LowerAscii(s: string): (r: string)
    ensures |r| == |s|
    ensures forall i :: 0 <= i < |s| ==> r[i] == ToLowerAscii(s[i])
  {
    if s == [] then [] else [ToLowerAscii(s[0])] + LowerAscii(s[1..])
  }

  predicate EndsWith(s: string, suffix: string) {
    |suffix| <= |s| && s[|s| - |suffix|..] == suffix
  }
}

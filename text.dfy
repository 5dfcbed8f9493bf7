/** The Python string methods the matcher relies on, restricted to ASCII:
    str.lower, str.strip, str.split with a one-character separator and
    str.endswith. */
module Text {

  /** str.isspace on ASCII: tab, line feed, vertical tab, form feed, carriage
      return, the separators 0x1C-0x1F, and space. */
  predicate IsSpace(c: char) {
    ('\t' <= c <= '\r') || ('\U{1C}' <= c <= '\U{1F}') || c == ' '
  }

  function LowerChar(c: char): char {
    if 'A' <= c <= 'Z' then (c as int + 32) as char else c
  }

  /** str.lower on ASCII letters; every other character is kept. */
  function Lower(s: string): string {
    seq(|s|, i requires 0 <= i < |s| => LowerChar(s[i]))
  }

  /** Length of the whitespace run at the front of `s`. */
  function LeadingSpace(s: string): (n: nat)
    ensures n <= |s| && forall k :: 0 <= k < n ==> IsSpace(s[k])
    ensures n < |s| ==> !IsSpace(s[n])
  {
    if |s| > 0 && IsSpace(s[0]) then 1 + LeadingSpace(s[1..]) else 0
  }

  /** Length of the whitespace run at the back of `s`. */
  function TrailingSpace(s: string): (n: nat)
    ensures n <= |s| && forall k :: |s| - n <= k < |s| ==> IsSpace(s[k])
    ensures n < |s| ==> !IsSpace(s[|s| - 1 - n])
  {
    if |s| > 0 && IsSpace(s[|s| - 1]) then 1 + TrailingSpace(s[..|s| - 1]) else 0
  }

  /** The whitespace run at the back of a suffix of `s` is at the back of `s`. */
  lemma TrailingSpaceOfSuffix(s: string, i: nat)
    requires i <= |s|
    ensures var n := TrailingSpace(s[i..]);
      && i + n <= |s|
      && (forall k :: |s| - n <= k < |s| ==> IsSpace(s[k]))
      && (i + n < |s| ==> !IsSpace(s[|s| - 1 - n]))
  {
    var t := s[i..];
    var n := TrailingSpace(t);
    forall k | |s| - n <= k < |s| ensures IsSpace(s[k]) {
      assert s[k] == t[k - i];
    }
    if i + n < |s| {
      assert s[|s| - 1 - n] == t[|t| - 1 - n];
    }
  }

  /** str.strip(): `s` without its leading and trailing whitespace. */
  function Strip(s: string): (r: string)
    ensures r == [] || (!IsSpace(r[0]) && !IsSpace(r[|r| - 1]))
    ensures exists i, j ::
              && 0 <= i <= j <= |s| && r == s[i..j]
              && (forall k :: 0 <= k < i ==> IsSpace(s[k]))
              && (forall k :: j <= k < |s| ==> IsSpace(s[k]))
  {
    var i := LeadingSpace(s);
    TrailingSpaceOfSuffix(s, i);
    var j := |s| - TrailingSpace(s[i..]);
    s[i..j]
  }

  /** str.endswith(suffix); every string ends with the empty suffix. */
  predicate EndsWith(s: string, suffix: string) {
    |suffix| <= |s| && s[|s| - |suffix|..] == suffix
  }

  /** Number of occurrences of `c` in `s`. */
  function Count(s: string, c: char): nat {
    if |s| == 0 then 0 else (if s[0] == c then 1 else 0) + Count(s[1..], c)
  }

  /** str.split(sep) for a one-character separator: the pieces between
      separators, so one more piece than there are separators. */
  function Split(s: string, sep: char): (parts: seq<string>)
    ensures |parts| == Count(s, sep) + 1
    ensures forall p :: p in parts ==> sep !in p
  {
    if |s| == 0 then [""]
    else
      var rest := Split(s[1..], sep);
      if s[0] == sep then [""] + rest
      else
        assert rest[0] in rest;
        [[s[0]] + rest[0]] + rest[1..]
  }

  /** sep.join(parts). */
  function Join(parts: seq<string>, sep: char): string
    requires |parts| > 0
  {
    if |parts| == 1 then parts[0] else parts[0] + [sep] + Join(parts[1..], sep)
  }

  /** Splitting loses nothing: joining the pieces gives the string back. */
  lemma {:induction false} SplitJoin(s: string, sep: char)
    ensures Join(Split(s, sep), sep) == s
  {
    if |s| > 0 {
      var rest := Split(s[1..], sep);
      SplitJoin(s[1..], sep);
      if s[0] == sep {
        assert Split(s, sep) == [""] + rest;
      } else if |rest| == 1 {
        assert Split(s, sep) == [[s[0]] + rest[0]];
        assert s == [s[0]] + s[1..];
      } else {
        assert Split(s, sep) == [[s[0]] + rest[0]] + rest[1..];
        assert Join(rest, sep) == rest[0] + [sep] + Join(rest[1..], sep);
        assert s == [s[0]] + s[1..];
      }
    }
  }

  /** Splitting a piece free of separators in front of `s` extends the first piece. */
  lemma {:induction false} SplitPrefix(x: string, s: string, sep: char)
    requires sep !in x
    ensures Split(x + s, sep) == [x + Split(s, sep)[0]] + Split(s, sep)[1..]
  {
    if |x| > 0 {
      SplitPrefix(x[1..], s, sep);
      assert x[0] in x;
      assert (x + s)[0] == x[0] != sep;
      assert (x + s)[1..] == x[1..] + s;
      var rest := Split(x[1..] + s, sep);
      assert Split(x + s, sep) == [[x[0]] + rest[0]] + rest[1..];
      assert [x[0]] + (x[1..] + Split(s, sep)[0]) == x + Split(s, sep)[0];
    } else {
      assert x + s == s;
      assert x + Split(s, sep)[0] == Split(s, sep)[0];
      assert [Split(s, sep)[0]] + Split(s, sep)[1..] == Split(s, sep);
    }
  }

  /** Joining pieces free of separators and splitting again gives the pieces back. */
  lemma {:induction false} JoinSplit(parts: seq<string>, sep: char)
    requires |parts| > 0
    requires forall p :: p in parts ==> sep !in p
    ensures Split(Join(parts, sep), sep) == parts
  {
    assert parts[0] in parts;
    if |parts| == 1 {
      SplitPrefix(parts[0], "", sep);
      assert parts[0] + "" == parts[0];
    } else {
      var tail := Join(parts[1..], sep);
      forall p | p in parts[1..] ensures sep !in p { assert p in parts; }
      JoinSplit(parts[1..], sep);
      assert Split([sep] + tail, sep) == [""] + parts[1..];
      SplitPrefix(parts[0], [sep] + tail, sep);
      assert parts[0] + [sep] + tail == parts[0] + ([sep] + tail);
      assert parts[0] + "" == parts[0];
      assert [parts[0]] + parts[1..] == parts;
    }
  }
}

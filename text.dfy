/**
 * The string operations of Python that the watermark tool relies on:
 * `str.lower()` and `str.split(sep)`, with `sep.join(parts)` as the inverse
 * of splitting.
 */
module Text {

  /** `str.lower()` on one character; only the ASCII letters are folded. */
  function LowerChar(c: char): (r: char)
    ensures ('A' <= c <= 'Z') == (r != c)
    ensures 'A' <= c <= 'Z' ==> 'a' <= r <= 'z'
  {
    if 'A' <= c <= 'Z' then (c as int - 'A' as int + 'a' as int) as char else c
  }

  /** `str.lower()`: every character folded, the length kept. */
  function Lower(s: string): (r: string)
    ensures |r| == |s|
    ensures forall i :: 0 <= i < |s| ==> r[i] == LowerChar(s[i])
  {
    seq(|s|, i requires 0 <= i < |s| => LowerChar(s[i]))
  }

  /** A string without capital letters is its own lower-case form. */
  lemma LowerKeeps(s: string)
    requires forall i :: 0 <= i < |s| ==> !('A' <= s[i] <= 'Z')
    ensures Lower(s) == s
  {
  }

  /** `s.split(sep)`: the pieces between the occurrences of `sep`; never empty. */
  function Split(s: string, sep: char): (parts: seq<string>)
    ensures |parts| >= 1
    decreases |s|
  {
    if s == [] then [[]]
    else
      var rest := Split(s[1..], sep);
      if s[0] == sep then [[]] + rest
      else [[s[0]] + rest[0]] + rest[1..]
  }

  /** `sep.join(parts)`. */
  function Join(parts: seq<string>, sep: char): string
    requires |parts| >= 1
    decreases |parts|
  {
    if |parts| == 1 then parts[0] else parts[0] + [sep] + Join(parts[1..], sep)
  }

  /** `parts[-1]`. */
  function Last<T>(parts: seq<T>): T
    requires |parts| >= 1
  {
    parts[|parts| - 1]
  }

  /** Joining the pieces of a split with the same separator gives back the string. */
  lemma {:induction false} JoinSplit(s: string, sep: char)
    ensures Join(Split(s, sep), sep) == s
    decreases |s|
  {
    if s != [] {
      var rest := Split(s[1..], sep);
      JoinSplit(s[1..], sep);
      if s[0] == sep {
        assert ([[]] + rest)[1..] == rest;
      } else if |rest| > 1 {
        var parts := [[s[0]] + rest[0]] + rest[1..];
        assert parts[1..] == rest[1..];
        assert Join(rest, sep) == rest[0] + [sep] + Join(rest[1..], sep);
        assert s == [s[0]] + s[1..];
      } else {
        assert s == [s[0]] + s[1..];
      }
    }
  }

  /** No piece of a split contains the separator. */
  lemma {:induction false} SplitPiecesFree(s: string, sep: char)
    ensures forall i :: 0 <= i < |Split(s, sep)| ==> sep !in Split(s, sep)[i]
    decreases |s|
  {
    if s != [] {
      SplitPiecesFree(s[1..], sep);
      var rest := Split(s[1..], sep);
      if s[0] != sep {
        assert sep !in rest[0];
        assert sep !in [s[0]] + rest[0];
      }
    }
  }

  /** A split has a single piece, the string itself, exactly when the separator does not occur. */
  lemma {:induction false} SplitSingle(s: string, sep: char)
    ensures (|Split(s, sep)| == 1) == (sep !in s)
    ensures |Split(s, sep)| == 1 ==> Split(s, sep)[0] == s
    decreases |s|
  {
    if s != [] {
      SplitSingle(s[1..], sep);
      assert s == [s[0]] + s[1..];
      assert sep in s <==> s[0] == sep || sep in s[1..];
    }
  }

  /**
   * The last piece of a split is the suffix after the last separator, or the
   * whole string when there is none.
   */
  lemma {:induction false} LastPieceAfterLastSep(s: string, sep: char)
    ensures var r := Last(Split(s, sep));
      |r| <= |s| && r == s[|s| - |r|..] && sep !in r &&
      (|r| == |s| || s[|s| - |r| - 1] == sep)
    decreases |s|
  {
    SplitPiecesFree(s, sep);
    if s != [] {
      LastPieceAfterLastSep(s[1..], sep);
      SplitSingle(s[1..], sep);
      SplitSingle(s, sep);
      var rest := Split(s[1..], sep);
      var r := Last(rest);
      if s[0] == sep {
        assert Last(Split(s, sep)) == r;
        assert s[1..][|s| - 1 - |r|..] == s[|s| - |r|..];
      } else if |rest| == 1 {
        assert Last(Split(s, sep)) == s;
      } else {
        assert Last(Split(s, sep)) == r;
        assert |r| < |s| - 1;
        assert s[1..][|s| - 1 - |r|..] == s[|s| - |r|..];
        assert s[1..][|s| - 1 - |r| - 1] == s[|s| - |r| - 1];
      }
    }
  }
}

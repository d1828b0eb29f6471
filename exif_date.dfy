/**
 * Normalisation of an EXIF capture date. EXIF 2.3 stores DateTimeOriginal
 * (tag 0x9003) as "YYYY:MM:DD HH:MM:SS"; the tool shows it as
 * "YYYY-MM-DD HH:MM:SS" by replacing the first two colons with hyphens.
 */
module ExifDate {

  /** Python's `s.replace(':', '-', count)`: the first `count` colons become hyphens. */
  function ReplaceColons(s: string, count: nat): string
    decreases |s|
  {
    if s == [] then []
    else if s[0] == ':' && count > 0 then "-" + ReplaceColons(s[1..], count - 1)
    else [s[0]] + ReplaceColons(s[1..], count)
  }

  /**
   * The conversion applied to every DateTimeOriginal value found, on either
   * path: the length is kept and at most two colons are replaced.
   */
  function NormaliseDate(raw: string): (r: string)
    ensures |r| == |raw|
    ensures CountColons(r) == if CountColons(raw) <= 2 then 0 else CountColons(raw) - 2
  {
    ReplaceColonsLength(raw, 2);
    ReplaceColonsCount(raw, 2);
    ReplaceColons(raw, 2)
  }

  /** The number of colons in `s`. */
  function CountColons(s: string): nat
    decreases |s|
  {
    if s == [] then 0 else (if s[0] == ':' then 1 else 0) + CountColons(s[1..])
  }

  /**
   * Position by position: a character changes exactly when it is a colon
   * preceded by fewer than `count` colons, and then it becomes a hyphen.
   */
  lemma {:induction false} ReplaceColonsAt(s: string, count: nat, i: nat)
    requires i < |s|
    ensures |ReplaceColons(s, count)| == |s|
    ensures ReplaceColons(s, count)[i] ==
      if s[i] == ':' && CountColons(s[..i]) < count then '-' else s[i]
    decreases |s|
  {
    var next := if s[0] == ':' && count > 0 then count - 1 else count;
    if i == 0 {
      assert s[..0] == [];
      if |s| > 1 {
        ReplaceColonsAt(s[1..], next, 0);
      }
    } else {
      ReplaceColonsAt(s[1..], next, i - 1);
      assert s[..i][1..] == s[1..][..i - 1];
      assert s[1..][i - 1] == s[i];
    }
  }

  /** Replacing colons keeps the length. */
  lemma {:induction false} ReplaceColonsLength(s: string, count: nat)
    ensures |ReplaceColons(s, count)| == |s|
  {
    if s != [] {
      ReplaceColonsAt(s, count, 0);
    }
  }

  /**
   * Exactly min(count, number of colons) colons are replaced; in particular a
   * string with fewer than `count` colons has none left.
   */
  lemma {:induction false} ReplaceColonsCount(s: string, count: nat)
    ensures CountColons(ReplaceColons(s, count)) ==
      if CountColons(s) <= count then 0 else CountColons(s) - count
    decreases |s|
  {
    if s != [] {
      if s[0] == ':' && count > 0 {
        ReplaceColonsCount(s[1..], count - 1);
        assert ("-" + ReplaceColons(s[1..], count - 1))[1..] == ReplaceColons(s[1..], count - 1);
      } else {
        ReplaceColonsCount(s[1..], count);
        assert ([s[0]] + ReplaceColons(s[1..], count))[1..] == ReplaceColons(s[1..], count);
      }
    }
  }

  /** A prefix without colons is copied unchanged. */
  lemma {:induction false} ReplaceColonsSkips(s: string, t: string, count: nat)
    requires ':' !in s
    ensures ReplaceColons(s + t, count) == s + ReplaceColons(t, count)
    decreases |s|
  {
    if s != [] {
      assert (s + t)[0] == s[0] && s[0] != ':';
      assert (s + t)[1..] == s[1..] + t;
      ReplaceColonsSkips(s[1..], t, count);
      calc {
        ReplaceColons(s + t, count);
        [s[0]] + ReplaceColons(s[1..] + t, count);
        [s[0]] + (s[1..] + ReplaceColons(t, count));
        { assert s == [s[0]] + s[1..]; }
        s + ReplaceColons(t, count);
      }
    } else {
      assert s + t == t;
    }
  }

  /** With no replacements left, the string is copied unchanged. */
  lemma {:induction false} ReplaceColonsNone(s: string)
    ensures ReplaceColons(s, 0) == s
    decreases |s|
  {
    if s != [] {
      ReplaceColonsNone(s[1..]);
      assert s == [s[0]] + s[1..];
    }
  }

  predicate IsDigit(c: char) { '0' <= c <= '9' }

  /** `s` has the shape of `pattern`, where 'D' stands for any decimal digit. */
  predicate HasShape(s: string, pattern: string)
  {
    |s| == |pattern| &&
    forall i :: 0 <= i < |s| ==> if pattern[i] == 'D' then IsDigit(s[i]) else s[i] == pattern[i]
  }

  lemma ShapeAt(s: string, pattern: string, i: int)
    requires HasShape(s, pattern) && 0 <= i < |s|
    ensures pattern[i] == 'D' ==> IsDigit(s[i])
    ensures pattern[i] != 'D' ==> s[i] == pattern[i]
  {
  }

  /** The EXIF 2.3 DateTimeOriginal form. */
  const ExifShape: string := "DDDD:DD:DD DD:DD:DD"

  /** The canonical timestamp form shown to the user. */
  const CanonicalShape: string := "DDDD-DD-DD DD:DD:DD"

  /** The colons at positions 4 and 7 of an EXIF date are the first two; everything else is copied. */
  lemma NormaliseExifDate(raw: string)
    requires HasShape(raw, ExifShape)
    ensures NormaliseDate(raw) == raw[..4] + "-" + raw[5..7] + "-" + raw[8..]
  {
    var year, month, rest := raw[..4], raw[5..7], raw[8..];
    assert raw == year + (":" + (month + (":" + rest)));
    assert ':' !in year by {
      forall i | 0 <= i < 4 ensures year[i] != ':' {
        ShapeAt(raw, ExifShape, i);
      }
    }
    assert ':' !in month by {
      ShapeAt(raw, ExifShape, 5);
      ShapeAt(raw, ExifShape, 6);
      assert month == [raw[5], raw[6]];
    }
    ReplaceColonsSkips(year, ":" + (month + (":" + rest)), 2);
    assert (":" + (month + (":" + rest)))[1..] == month + (":" + rest);
    ReplaceColonsSkips(month, ":" + rest, 1);
    assert (":" + rest)[1..] == rest;
    ReplaceColonsNone(rest);
  }

  /**
   * A well-formed EXIF date becomes a canonical timestamp (the pieces are
   * those of NormaliseExifDate).
   */
  lemma ExifDateBecomesCanonical(raw: string)
    requires HasShape(raw, ExifShape)
    ensures HasShape(NormaliseDate(raw), CanonicalShape)
  {
    NormaliseExifDate(raw);
    var r := NormaliseDate(raw);
    assert |r| == 19;
    forall i | 0 <= i < 19
      ensures if CanonicalShape[i] == 'D' then IsDigit(r[i]) else r[i] == CanonicalShape[i]
    {
      if i == 4 || i == 7 {
        assert r[i] == '-';
      } else {
        assert r[i] == raw[i];
        assert CanonicalShape[i] == ExifShape[i];
      }
    }
  }
}

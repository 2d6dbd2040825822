/** The Go standard-library string routines the fleet code relies on:
    `strings.Split` and `strings.Trim` with a one-character separator or cutset,
    `strings.Join`, `strings.Contains`, and `strconv.ParseInt` / `strconv.FormatInt`
    in base 10 with a 64-bit size. */
module Text {
  import opened Results

  // ---------------------------------------------------------------- Join / Split

  /** strings.Join: the parts with `sep` between consecutive ones. */
  function Join(parts: seq<string>, sep: string): string
  {
    if |parts| == 0 then ""
    else if |parts| == 1 then parts[0]
    else parts[0] + sep + Join(parts[1..], sep)
  }

  /** strings.Split with a one-character separator: the maximal runs of `s`
      between occurrences of `sep`; the empty string gives one empty part. */
  function Split(s: string, sep: char): (parts: seq<string>)
    ensures |parts| >= 1
    ensures forall p :: p in parts ==> sep !in p
  {
    if |s| == 0 then [""]
    else
      var rest := Split(s[1..], sep);
      if s[0] == sep then [""] + rest
      else
        var head := [s[0]] + rest[0];
        assert forall p :: p in [head] + rest[1..] ==> p == head || p in rest;
        [head] + rest[1..]
  }

  /** Joining the parts back with the separator gives the text that was split. */
  lemma {:induction false} JoinSplit(s: string, sep: char)
    ensures Join(Split(s, sep), [sep]) == s
  {
    if |s| > 0 {
      var rest := Split(s[1..], sep);
      JoinSplit(s[1..], sep);
      if s[0] == sep {
        JoinEmptyFirst(rest, [sep]);
      } else {
        JoinGlued(s[0], rest, [sep]);
      }
      assert [s[0]] + s[1..] == s;
    }
  }

  /** An empty first part leaves just the separator before the rest. */
  lemma JoinEmptyFirst(parts: seq<string>, sep: string)
    requires |parts| >= 1
    ensures Join([""] + parts, sep) == sep + Join(parts, sep)
  {
    assert ([""] + parts)[1..] == parts;
  }

  /** A character glued onto the first part comes first in the joined text. */
  lemma JoinGlued(c: char, parts: seq<string>, sep: string)
    requires |parts| >= 1
    ensures Join([[c] + parts[0]] + parts[1..], sep) == [c] + Join(parts, sep)
  {
    if |parts| > 1 {
      assert ([[c] + parts[0]] + parts[1..])[1..] == parts[1..];
    }
  }

  /** A joined text starts with its first part and ends with its last. */
  lemma {:induction false} JoinEnds(parts: seq<string>, sep: string)
    requires |parts| >= 1
    ensures parts[0] <= Join(parts, sep)
    ensures var j := Join(parts, sep); var l := parts[|parts| - 1];
            |l| <= |j| && j[|j| - |l|..] == l
  {
    if |parts| > 1 {
      JoinEnds(parts[1..], sep);
      var j := Join(parts, sep);
      var rest := Join(parts[1..], sep);
      assert j == (parts[0] + sep) + rest;
      var l := parts[|parts| - 1];
      assert j[|j| - |l|..] == rest[|rest| - |l|..];
    }
  }

  /** Splitting a text that starts with a run free of the separator glues that
      run onto the first part. */
  lemma {:induction false} SplitPrepend(p: string, t: string, sep: char)
    requires sep !in p
    ensures Split(p + t, sep) == [p + Split(t, sep)[0]] + Split(t, sep)[1..]
    decreases |p|
  {
    if |p| > 0 {
      assert (p + t)[1..] == p[1..] + t;
      SplitPrepend(p[1..], t, sep);
      assert [p[0]] + (p[1..] + Split(t, sep)[0]) == p + Split(t, sep)[0];
    } else {
      var parts := Split(t, sep);
      assert p + t == t;
      assert p + parts[0] == parts[0];
      assert [parts[0]] + parts[1..] == parts;
    }
  }

  /** Split undoes Join when no part holds the separator. */
  lemma {:induction false} SplitJoin(parts: seq<string>, sep: char)
    requires |parts| >= 1
    requires forall p :: p in parts ==> sep !in p
    ensures Split(Join(parts, [sep]), sep) == parts
  {
    if |parts| == 1 {
      SplitPrepend(parts[0], "", sep);
      assert parts[0] + "" == parts[0];
    } else {
      var tail := Join(parts[1..], [sep]);
      assert forall p :: p in parts[1..] ==> p in parts;
      SplitJoin(parts[1..], sep);
      SplitPrepend(parts[0], [sep] + tail, sep);
      assert parts[0] + [sep] + tail == parts[0] + ([sep] + tail);
      assert ([sep] + tail)[1..] == tail;
      assert Split([sep] + tail, sep) == [""] + parts[1..];
      assert parts[0] + "" == parts[0];
      assert [parts[0]] + parts[1..] == parts;
    }
  }

  // ---------------------------------------------------------------- Trim

  /** Drops every leading `c`. */
  function TrimLeft(s: string, c: char): (r: string)
    ensures |r| <= |s| && r == s[|s| - |r|..]
    ensures forall k :: 0 <= k < |s| - |r| ==> s[k] == c
    ensures |r| > 0 ==> r[0] != c
  {
    if |s| > 0 && s[0] == c then TrimLeft(s[1..], c) else s
  }

  /** Drops every trailing `c`. */
  function TrimRight(s: string, c: char): (r: string)
    ensures |r| <= |s| && r == s[..|r|]
    ensures forall k :: |r| <= k < |s| ==> s[k] == c
    ensures |r| > 0 ==> r[|r| - 1] != c
  {
    if |s| > 0 && s[|s| - 1] == c then TrimRight(s[..|s| - 1], c) else s
  }

  /** strings.Trim with the one-character cutset `c`: `s` without its leading
      and trailing runs of `c`; what is dropped is made of `c` only. */
  function Trim(s: string, c: char): (r: string)
    ensures |r| > 0 ==> r[0] != c && r[|r| - 1] != c
    ensures exists i :: Dropped(s, c, i, r)
  {
    TrimDrops(s, c);
    TrimRight(TrimLeft(s, c), c)
  }

  /** What Trim keeps starts where TrimLeft stopped dropping. */
  lemma TrimDrops(s: string, c: char)
    ensures Dropped(s, c, |s| - |TrimLeft(s, c)|, TrimRight(TrimLeft(s, c), c))
  {
    TrimKept(s, c);
    TrimTail(s, c);
  }

  lemma TrimKept(s: string, c: char)
    ensures var l := TrimLeft(s, c); var r := TrimRight(l, c); var i := |s| - |l|;
            r == s[i..i + |r|]
  {
    var l := TrimLeft(s, c);
    var r := TrimRight(l, c);
    var i := |s| - |l|;
    assert l == s[i..];
    assert r == l[..|r|];
  }

  lemma TrimTail(s: string, c: char)
    ensures var l := TrimLeft(s, c); var r := TrimRight(l, c); var i := |s| - |l|;
            forall k :: i + |r| <= k < |s| ==> s[k] == c
  {
    var l := TrimLeft(s, c);
    var r := TrimRight(l, c);
    var i := |s| - |l|;
    forall k | i + |r| <= k < |s|
      ensures s[k] == c
    {
      assert l[k - i] == c;
    }
  }

  /** `r` is the part of `s` starting at `i`, and what lies before and after it is made of `c` only. */
  predicate Dropped(s: string, c: char, i: int, r: string)
  {
    && 0 <= i && i + |r| <= |s| && r == s[i..i + |r|]
    && (forall k :: 0 <= k < i ==> s[k] == c)
    && (forall k :: i + |r| <= k < |s| ==> s[k] == c)
  }

  /** A text that neither starts nor ends with `c` is left as it is. */
  lemma TrimUntouched(s: string, c: char)
    requires |s| > 0 && s[0] != c && s[|s| - 1] != c
    ensures Trim(s, c) == s
  {
    var r := Trim(s, c);
    var i :| Dropped(s, c, i, r);
    assert i == 0;
    assert |r| == |s|;
  }

  /** One trailing `c` after a text that neither starts nor ends with `c` is all Trim drops. */
  lemma TrimOneTrailing(s: string, c: char)
    requires |s| > 0 && s[0] != c && s[|s| - 1] != c
    ensures Trim(s + [c], c) == s
  {
    var t := s + [c];
    var r := Trim(t, c);
    var i :| Dropped(t, c, i, r);
    assert i == 0;
    assert |r| == |s|;
    assert r == t[..|s|];
  }

  // ---------------------------------------------------------------- Contains

  /** `sub` occurs in `s` at offset `k`. */
  predicate OccursAt(s: string, sub: string, k: int)
  {
    0 <= k && k + |sub| <= |s| && s[k..k + |sub|] == sub
  }

  /** strings.Contains: `sub` occurs somewhere in `s` (the empty text occurs everywhere). */
  function Contains(s: string, sub: string): (b: bool)
    ensures b <==> exists k :: OccursAt(s, sub, k)
    decreases |s|
  {
    if |sub| > |s| then
      assert forall k :: !OccursAt(s, sub, k);
      false
    else if s[..|sub|] == sub then
      assert OccursAt(s, sub, 0);
      true
    else
      var b := Contains(s[1..], sub);
      assert forall k :: OccursAt(s[1..], sub, k) ==> OccursAt(s, sub, k + 1) by {
        forall k | OccursAt(s[1..], sub, k) ensures OccursAt(s, sub, k + 1) {
          assert s[1..][k..k + |sub|] == s[k + 1..k + 1 + |sub|];
        }
      }
      assert forall k :: OccursAt(s, sub, k) ==> k > 0 && OccursAt(s[1..], sub, k - 1) by {
        forall k | OccursAt(s, sub, k) ensures k > 0 && OccursAt(s[1..], sub, k - 1) {
          assert k != 0;
          assert s[1..][k - 1..k - 1 + |sub|] == s[k..k + |sub|];
        }
      }
      b
  }

  // ---------------------------------------------------------------- integers

  const MinInt64: int := -0x8000_0000_0000_0000
  const MaxInt64: int := 0x7fff_ffff_ffff_ffff

  predicate IsDigit(ch: char)
  {
    '0' <= ch <= '9'
  }

  predicate AllDigits(s: string)
  {
    forall k :: 0 <= k < |s| ==> IsDigit(s[k])
  }

  /** The decimal value of a run of digits, leading zeros allowed. */
  function DigitsValue(s: string): nat
    requires AllDigits(s)
  {
    if |s| == 0 then 0
    else DigitsValue(s[..|s| - 1]) * 10 + (s[|s| - 1] as int - '0' as int)
  }

  /** strconv.ParseInt(s, 10, 64): an optional sign followed by at least one
      decimal digit, whose value fits in 64 signed bits; anything else is an error. */
  function ParseInt64(s: string): (r: Option<int>)
    ensures r.Some? ==> MinInt64 <= r.value <= MaxInt64
    ensures r.Some? ==> |s| > 0 && (AllDigits(s) || ((s[0] == '+' || s[0] == '-') && |s| > 1 && AllDigits(s[1..])))
    ensures |s| > 0 && AllDigits(s) ==>
              r == if DigitsValue(s) <= MaxInt64 then Some(DigitsValue(s)) else None
    ensures |s| > 1 && s[0] == '+' && AllDigits(s[1..]) ==>
              r == if DigitsValue(s[1..]) <= MaxInt64 then Some(DigitsValue(s[1..])) else None
    ensures |s| > 1 && s[0] == '-' && AllDigits(s[1..]) ==>
              r == if DigitsValue(s[1..]) <= -MinInt64 then Some(-(DigitsValue(s[1..]) as int)) else None
  {
    var signed := |s| > 0 && (s[0] == '+' || s[0] == '-');
    var digits := if signed then s[1..] else s;
    if |digits| == 0 || !AllDigits(digits) then None
    else
      var v: int := if signed && s[0] == '-' then 0 - DigitsValue(digits) else DigitsValue(digits);
      if MinInt64 <= v <= MaxInt64 then Some(v) else None
  }

  function DigitChar(d: int): (ch: char)
    requires 0 <= d < 10
    ensures IsDigit(ch) && ch as int - '0' as int == d
  {
    ('0' as int + d) as char
  }

  /** The shortest decimal spelling of `n`. */
  function FormatNat(n: nat): (s: string)
    ensures |s| >= 1 && AllDigits(s) && DigitsValue(s) == n
  {
    if n < 10 then [DigitChar(n)]
    else
      var s := FormatNat(n / 10) + [DigitChar(n % 10)];
      assert s[..|s| - 1] == FormatNat(n / 10);
      s
  }

  /** strconv.FormatInt(n, 10). */
  function FormatInt(n: int): string
  {
    if n < 0 then "-" + FormatNat(-n) else FormatNat(n)
  }

  /** ParseInt64 reads back what FormatInt writes, over the whole 64-bit range. */
  lemma ParseFormat(n: int)
    requires MinInt64 <= n <= MaxInt64
    ensures ParseInt64(FormatInt(n)) == Some(n)
  {
    if n < 0 {
      var s := FormatInt(n);
      assert s[1..] == FormatNat(-n);
    }
  }
}

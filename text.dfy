/** The string operations the widget relies on: ASCII lower-casing,
    `String.prototype.includes`, decimal rendering of a page or product
    number, and the slice of `parseInt` applied to a droppable id. */
module Text {
  import opened Collections

  /** ASCII case folding of one character (`toLowerCase` restricted to A-Z). */
  function LowerChar(c: char): char
  {
    if 'A' <= c <= 'Z' then (c as int + 32) as char else c
  }

  predicate IsUpper(c: char)
  {
    'A' <= c <= 'Z'
  }

  /** `s.toLowerCase()` over ASCII: same length, every letter folded, no
      upper-case letter left. */
  function ToLower(s: string): (r: string)
    ensures |r| == |s|
    ensures forall i :: 0 <= i < |s| ==> r[i] == LowerChar(s[i]) && !IsUpper(r[i])
  {
    seq(|s|, i requires 0 <= i < |s| => LowerChar(s[i]))
  }

  /** Lower-casing twice is lower-casing once. */
  lemma ToLowerIdempotent(s: string)
    ensures ToLower(ToLower(s)) == ToLower(s)
  {
    var once := ToLower(s);
    forall i | 0 <= i < |s|
      ensures ToLower(once)[i] == once[i]
    {
      assert !IsUpper(once[i]);
    }
  }

  /** `t` occurs in `s` starting at index `i`. */
  predicate OccursAt(s: string, t: string, i: int)
  {
    0 <= i && i + |t| <= |s| && s[i..i + |t|] == t
  }

  /** `s.includes(t)`: true exactly when `t` occurs somewhere in `s`
      (the empty string occurs everywhere). */
  function Includes(s: string, t: string): (r: bool)
    ensures r <==> exists i :: OccursAt(s, t, i)
    decreases |s|
  {
    if |t| <= |s| && s[..|t|] == t then
      assert OccursAt(s, t, 0);
      true
    else if |s| <= |t| then
      assert forall i :: !OccursAt(s, t, i) by {
        forall i | OccursAt(s, t, i) ensures false {
          assert false;
        }
      }
      false
    else
      var r := Includes(s[1..], t);
      assert forall i :: OccursAt(s[1..], t, i) <==> OccursAt(s, t, i + 1) by {
        forall i ensures OccursAt(s[1..], t, i) <==> OccursAt(s, t, i + 1) {
          if 0 <= i && i + |t| <= |s| - 1 {
            assert s[1..][i..i + |t|] == s[i + 1..i + 1 + |t|];
          }
        }
      }
      assert r ==> exists i :: OccursAt(s, t, i) by {
        if r {
          var i :| OccursAt(s[1..], t, i);
          assert OccursAt(s, t, i + 1);
        }
      }
      assert (exists i :: OccursAt(s, t, i)) ==> r by {
        if exists i :: OccursAt(s, t, i) {
          var i :| OccursAt(s, t, i);
          assert i != 0;
          assert OccursAt(s[1..], t, i - 1);
        }
      }
      r
  }

  /** The empty string is included in every string. */
  lemma IncludesEmpty(s: string)
    ensures Includes(s, "")
  {
    assert OccursAt(s, "", 0);
  }

  predicate IsDigit(c: char)
  {
    '0' <= c <= '9'
  }

  predicate AllDigits(s: string)
  {
    forall i :: 0 <= i < |s| ==> IsDigit(s[i])
  }

  function DigitChar(d: nat): (c: char)
    requires d < 10
    ensures IsDigit(c)
  {
    ('0' as int + d) as char
  }

  /** `${n}` for a non-negative integer: its decimal digits, most significant first. */
  function NatToString(n: nat): (r: string)
    ensures |r| > 0 && AllDigits(r)
    decreases n
  {
    if n < 10 then [DigitChar(n)] else NatToString(n / 10) + [DigitChar(n % 10)]
  }

  /** The value of a string of decimal digits. */
  function DigitsValue(s: string): nat
    requires AllDigits(s)
  {
    if s == [] then 0
    else DigitsValue(s[..|s| - 1]) * 10 + (s[|s| - 1] as int - '0' as int)
  }

  /** Reading back the decimal rendering of `n` gives `n`. */
  lemma {:induction false} DigitsRoundTrip(n: nat)
    ensures DigitsValue(NatToString(n)) == n
    decreases n
  {
    if n >= 10 {
      DigitsRoundTrip(n / 10);
      var s := NatToString(n);
      assert s[..|s| - 1] == NatToString(n / 10);
    }
  }

  /** The longest prefix of `s` made of decimal digits. */
  function LeadingDigits(s: string): (r: string)
    ensures |r| <= |s| && r == s[..|r|] && AllDigits(r)
    ensures |r| < |s| ==> !IsDigit(s[|r|])
  {
    if s != [] && IsDigit(s[0]) then [s[0]] + LeadingDigits(s[1..]) else []
  }

  lemma {:induction false} LeadingDigitsOfDigits(s: string)
    requires AllDigits(s)
    ensures LeadingDigits(s) == s
  {
    if s != [] {
      LeadingDigitsOfDigits(s[1..]);
    }
  }

  /** `parseInt(s, 10)` restricted to what a droppable id can hold: an
      optional `+` sign and the leading decimal digits; `None` stands for
      `NaN` (no digits at all). */
  function ParseInt(s: string): (r: Option<int>)
    ensures r.Some? <==> (var body := if s != [] && s[0] == '+' then s[1..] else s;
                          body != [] && IsDigit(body[0]))
  {
    var body := if s != [] && s[0] == '+' then s[1..] else s;
    var digits := LeadingDigits(body);
    if digits == [] then None else Some(DigitsValue(digits))
  }

  /** `parseInt` reads back any decimal rendering of a non-negative integer. */
  lemma ParseIntRoundTrip(n: nat)
    ensures ParseInt(NatToString(n)) == Some(n)
  {
    LeadingDigitsOfDigits(NatToString(n));
    DigitsRoundTrip(n);
  }

  /** The characters of `s` before its first `-`. */
  function UpToDash(s: string): (r: string)
    ensures '-' !in r && |r| <= |s| && r == s[..|r|]
    ensures |r| < |s| ==> s[|r|] == '-'
  {
    if s == [] || s[0] == '-' then [] else [s[0]] + UpToDash(s[1..])
  }

  /** `s.split('-')[1]`: the field between the first and the second `-`,
      `None` (`undefined`) when `s` has no `-`. */
  function SecondField(s: string): (r: Option<string>)
    ensures r.None? <==> '-' !in s
  {
    if s == [] then None
    else if s[0] == '-' then Some(UpToDash(s[1..]))
    else
      var r := SecondField(s[1..]);
      assert '-' in s <==> '-' in s[1..] by {
        assert s == [s[0]] + s[1..];
      }
      r
  }

  /** Splitting `p-d` where neither part holds a `-` yields `d` as the second field. */
  lemma {:induction false} SecondFieldOfJoin(p: string, d: string)
    requires '-' !in p && '-' !in d
    ensures SecondField(p + "-" + d) == Some(d)
  {
    if p == [] {
      assert ("-" + d)[1..] == d;
      UpToDashNoDash(d);
    } else {
      assert (p + "-" + d)[1..] == p[1..] + "-" + d;
      SecondFieldOfJoin(p[1..], d);
    }
  }

  lemma {:induction false} UpToDashNoDash(d: string)
    requires '-' !in d
    ensures UpToDash(d) == d
  {
    if d != [] {
      assert d[0] != '-';
      assert d == [d[0]] + d[1..];
      UpToDashNoDash(d[1..]);
    }
  }
}

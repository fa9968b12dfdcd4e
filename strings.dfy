/**
 * The two pieces of JavaScript string behaviour the client relies on:
 * `String.prototype.includes` (used to colour the status line) and the
 * decimal rendering of a whole number inside a template literal (used for
 * the "Enviando: N%" progress status).
 */
module Strings {

  /** `s.includes(sub)`: `sub` is a prefix of `s` or of some suffix of `s`. */
  predicate Includes(s: string, sub: string)
    ensures Includes(s, sub) ==> |sub| <= |s|
    decreases |s|
  {
    sub <= s || (|s| > 0 && Includes(s[1..], sub))
  }

  /** The reference meaning of `includes`: `sub` occurs at some index of `s`. */
  ghost predicate OccursAt(s: string, sub: string, i: int)
  {
    0 <= i && i + |sub| <= |s| && s[i..i + |sub|] == sub
  }

  /** `Includes` finds exactly the occurrences the reference definition describes. */
  lemma {:induction false} IncludesIffOccurs(s: string, sub: string)
    ensures Includes(s, sub) <==> exists i :: OccursAt(s, sub, i)
    decreases |s|
  {
    if sub <= s {
      assert OccursAt(s, sub, 0);
    } else if |s| > 0 {
      IncludesIffOccurs(s[1..], sub);
      if Includes(s[1..], sub) {
        var i :| OccursAt(s[1..], sub, i);
        assert s[i + 1..i + 1 + |sub|] == s[1..][i..i + |sub|];
        assert OccursAt(s, sub, i + 1);
      } else {
        forall i ensures !OccursAt(s, sub, i) {
          if 1 <= i && i + |sub| <= |s| {
            assert s[1..][i - 1..i - 1 + |sub|] == s[i..i + |sub|];
            assert !OccursAt(s[1..], sub, i - 1);
          }
        }
      }
    }
  }

  /** Every occurrence of `sub` in `s` gives `includes` true. */
  lemma IncludesAt(s: string, sub: string, i: int)
    requires OccursAt(s, sub, i)
    ensures Includes(s, sub)
  {
    IncludesIffOccurs(s, sub);
  }

  /** A string without the first character of `sub` does not include `sub`. */
  lemma {:induction false} ExcludesByHead(s: string, sub: string)
    requires |sub| > 0 && sub[0] !in s
    ensures !Includes(s, sub)
    decreases |s|
  {
    if |s| > 0 {
      assert s[0] != sub[0];
      assert sub[0] !in s[1..] by {
        forall j | 0 <= j < |s| - 1 ensures s[1..][j] != sub[0] {
          assert s[1..][j] == s[j + 1];
        }
      }
      ExcludesByHead(s[1..], sub);
    }
  }

  /**
   * Prepending characters other than the first character of `sub` cannot
   * create an occurrence of `sub`.
   */
  lemma {:induction false} ExcludesAcrossPrefix(a: string, b: string, sub: string)
    requires |sub| > 0 && sub[0] !in a
    requires !Includes(b, sub)
    ensures !Includes(a + b, sub)
    decreases |a|
  {
    if |a| > 0 {
      assert (a + b)[0] == a[0] != sub[0];
      assert (a + b)[1..] == a[1..] + b;
      assert sub[0] !in a[1..] by {
        forall j | 0 <= j < |a| - 1 ensures a[1..][j] != sub[0] {
          assert a[1..][j] == a[j + 1];
        }
      }
      ExcludesAcrossPrefix(a[1..], b, sub);
    } else {
      assert a + b == b;
    }
  }

  /**
   * A string whose second character differs from that of `sub`, and whose
   * only copy of the first character of `sub` may be its own first
   * character, does not include `sub`.
   */
  lemma ExcludesPastFirst(s: string, sub: string)
    requires |s| >= 2 && |sub| >= 2 && s[1] != sub[1]
    requires sub[0] !in s[1..]
    ensures !Includes(s, sub)
  {
    assert |sub| <= |s| ==> s[..|sub|][1] == s[1];
    ExcludesByHead(s[1..], sub);
  }

  /** The decimal digit for `d`. */
  function DigitChar(d: nat): (c: char)
    requires d < 10
    ensures '0' <= c <= '9' && c as int - '0' as int == d
  {
    "0123456789"[d]
  }

  predicate IsDigits(s: string)
  {
    forall i :: 0 <= i < |s| ==> '0' <= s[i] <= '9'
  }

  /** The value of a string of decimal digits, most significant first. */
  function DigitsValue(s: string): nat
    requires IsDigits(s)
  {
    if s == [] then 0
    else DigitsValue(s[..|s| - 1]) * 10 + (s[|s| - 1] as int - '0' as int)
  }

  /** `${n}` for a whole number `n`: its shortest decimal rendering. */
  function Decimal(n: nat): (s: string)
    ensures |s| > 0 && IsDigits(s)
    ensures |s| > 1 ==> s[0] != '0'
    decreases n
  {
    if n < 10 then [DigitChar(n)] else Decimal(n / 10) + [DigitChar(n % 10)]
  }

  /** Reading the rendering back gives the number: `Decimal` loses nothing. */
  lemma {:induction false} DecimalRoundTrip(n: nat)
    ensures DigitsValue(Decimal(n)) == n
    decreases n
  {
    var s := Decimal(n);
    if n >= 10 {
      DecimalRoundTrip(n / 10);
      assert s[..|s| - 1] == Decimal(n / 10);
    }
  }
}

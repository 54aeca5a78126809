/**
 * A dotted-numeric reading of `version_compare($a, $b, 'gt')`.
 * For versions made only of decimal numbers separated by dots, the numbers are
 * compared left to right as unbounded naturals, and when one version runs out
 * first the longer one is the newer ("1.0" < "1.0.0"). PHP reads each component
 * into a C `long`, which saturates; that and any text other than digits and dots
 * are outside this reading, which is never "greater" on such text.
 */
module Versions {
  import opened Wrappers
  import opened PhpStrings

  predicate IsDigit(c: char) {
    '0' <= c <= '9'
  }

  predicate IsNumber(s: string) {
    s != [] && forall i :: 0 <= i < |s| ==> IsDigit(s[i])
  }

  /** The decimal value of a digit string. */
  function NumberValue(s: string): nat
    requires forall i :: 0 <= i < |s| ==> IsDigit(s[i])
  {
    if s == [] then 0
    else
      assert IsDigit(s[|s| - 1]);
      10 * NumberValue(s[..|s| - 1]) + (s[|s| - 1] as int - '0' as int)
  }

  /** The numbers of a dotted-numeric version; `None` for any other text. */
  function Parse(v: string): (r: Option<seq<nat>>)
    ensures r.Some? ==> |r.value| == |Explode(v, '.')|
  {
    var parts := Explode(v, '.');
    if forall i :: 0 <= i < |parts| ==> IsNumber(parts[i]) then
      Some(seq(|parts|, i requires 0 <= i < |parts| => NumberValue(parts[i])))
    else None
  }

  /** Lexicographic "greater" on number lists, a proper prefix being the smaller. */
  predicate LexGreater(a: seq<nat>, b: seq<nat>)
    decreases |a|
  {
    |a| > 0 && (|b| == 0 || a[0] > b[0] || (a[0] == b[0] && LexGreater(a[1..], b[1..])))
  }

  /** `version_compare($a, $b, 'gt')` on dotted-numeric versions. */
  predicate DottedGreater(a: string, b: string) {
    var pa, pb := Parse(a), Parse(b);
    pa.Some? && pb.Some? && LexGreater(pa.value, pb.value)
  }

  lemma {:induction false} LexIrreflexive(a: seq<nat>)
    ensures !LexGreater(a, a)
  {
    if |a| > 0 {
      LexIrreflexive(a[1..]);
    }
  }

  lemma {:induction false} LexTransitive(a: seq<nat>, b: seq<nat>, c: seq<nat>)
    requires LexGreater(a, b) && LexGreater(b, c)
    ensures LexGreater(a, c)
  {
    if |c| > 0 && a[0] == b[0] == c[0] {
      LexTransitive(a[1..], b[1..], c[1..]);
    }
  }

  lemma {:induction false} LexTotal(a: seq<nat>, b: seq<nat>)
    requires a != b
    ensures LexGreater(a, b) || LexGreater(b, a)
  {
    if |a| > 0 && |b| > 0 && a[0] == b[0] {
      assert a == [a[0]] + a[1..] && b == [b[0]] + b[1..];
      LexTotal(a[1..], b[1..]);
    }
  }

  /** The comparison is a strict order: irreflexive, asymmetric and transitive. */
  lemma DottedGreaterIsStrictOrder(a: string, b: string, c: string)
    ensures !DottedGreater(a, a)
    ensures DottedGreater(a, b) ==> !DottedGreater(b, a)
    ensures DottedGreater(a, b) && DottedGreater(b, c) ==> DottedGreater(a, c)
  {
    if Parse(a).Some? {
      LexIrreflexive(Parse(a).value);
    }
    if DottedGreater(a, b) && DottedGreater(b, a) {
      LexTransitive(Parse(a).value, Parse(b).value, Parse(a).value);
    }
    if DottedGreater(a, b) && DottedGreater(b, c) {
      LexTransitive(Parse(a).value, Parse(b).value, Parse(c).value);
    }
  }

  /** Two dotted-numeric versions with different numbers are always ordered one way or the other. */
  lemma DottedGreaterTotal(a: string, b: string)
    requires Parse(a).Some? && Parse(b).Some? && Parse(a) != Parse(b)
    ensures DottedGreater(a, b) || DottedGreater(b, a)
  {
    LexTotal(Parse(a).value, Parse(b).value);
  }

  /** A version of three one-digit numbers parses to those numbers. */
  lemma ParseThreeDigits(a: char, b: char, c: char)
    requires IsDigit(a) && IsDigit(b) && IsDigit(c)
    ensures Parse([a, '.', b, '.', c]) == Some([a as int - '0' as int, b as int - '0' as int, c as int - '0' as int])
  {
    var parts := [[a], [b], [c]];
    assert Implode('.', parts[2..]) == [c];
    assert Implode('.', parts[1..]) == [b, '.', c];
    assert Implode('.', parts) == [a, '.', b, '.', c];
    ExplodeImplode(parts, '.');
    assert IsNumber(parts[0]) && IsNumber(parts[1]) && IsNumber(parts[2]);
    assert NumberValue([a]) == a as int - '0' as int by {
      assert [a][..0] == [];
    }
    assert NumberValue([b]) == b as int - '0' as int by {
      assert [b][..0] == [];
    }
    assert NumberValue([c]) == c as int - '0' as int by {
      assert [c][..0] == [];
    }
    var values := seq(|parts|, i requires 0 <= i < |parts| => NumberValue(parts[i]));
    assert values == [a as int - '0' as int, b as int - '0' as int, c as int - '0' as int];
  }

  /** A dotted join of decimal numbers parses to their values, component by component. */
  lemma ParseNumbers(parts: seq<string>)
    requires |parts| >= 1
    requires forall i :: 0 <= i < |parts| ==> IsNumber(parts[i])
    ensures var r := Parse(Implode('.', parts));
      && r.Some? && |r.value| == |parts|
      && forall i :: 0 <= i < |parts| ==> IsNumber(parts[i]) && r.value[i] == NumberValue(parts[i])
  {
    assert forall i :: 0 <= i < |parts| ==> '.' !in parts[i];
    ExplodeImplode(parts, '.');
  }

  /** Components compare as numbers, not as text: 1.10.0 is newer than 1.9.0. */
  lemma NumericComponents()
    ensures DottedGreater("1.10.0", "1.9.0")
  {
    var newer, older := ["1", "10", "0"], ["1", "9", "0"];
    assert Implode('.', newer) == "1.10.0";
    assert Implode('.', older) == "1.9.0";
    assert IsNumber(newer[0]) && IsNumber(newer[1]) && IsNumber(newer[2]);
    assert IsNumber(older[0]) && IsNumber(older[1]) && IsNumber(older[2]);
    ParseNumbers(newer);
    ParseNumbers(older);
    assert NumberValue("1") == 1 && NumberValue("0") == 0 && NumberValue("9") == 9 by {
      assert "1"[..0] == [] && "0"[..0] == [] && "9"[..0] == [];
    }
    assert NumberValue("10") == 10 by {
      assert "10"[..1] == "1";
    }
    var pn, po := Parse("1.10.0").value, Parse("1.9.0").value;
    assert pn[0] == po[0] && pn[1] > po[1];
    assert pn[1..][0] > po[1..][0];
  }
}

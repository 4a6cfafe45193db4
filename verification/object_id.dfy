/**
 * Mongoose's cast of a route parameter to an `ObjectId` before a query on
 * `_id` runs: a string of 24 hex digits (either case) names the id it
 * spells; anything else makes the query throw a `CastError`, which the
 * route's catch answers.
 */
module ObjectIds {
  import opened Types
  import Hex

  /** Hex digits in the text form of an `ObjectId` (twelve bytes). */
  const ID_DIGITS := 24

  function Pow16(k: nat): (r: nat)
    ensures r >= 1
  {
    if k == 0 then 1 else 16 * Pow16(k - 1)
  }

  predicate IsHexText(s: string) {
    forall i :: 0 <= i < |s| ==> Hex.DigitValue(s[i]).Some?
  }

  /** The number a string of hex digits spells, most significant digit first. */
  function Value(s: string): (n: nat)
    requires IsHexText(s)
    ensures n < Pow16(|s|)
  {
    if s == [] then 0
    else
      assert IsHexText(s[..|s| - 1]);
      Value(s[..|s| - 1]) * 16 + Hex.DigitValue(s[|s| - 1]).value
  }

  /** The `k` lower-case hex digits of `n`, padded with zeros (`ObjectId.toHexString` for k = 24). */
  function Text(n: nat, k: nat): (s: string)
    ensures |s| == k
    ensures forall i :: 0 <= i < |s| ==> Hex.IsLowerHexDigit(s[i])
  {
    if k == 0 then "" else Text(n / 16, k - 1) + [Hex.DigitChar(n % 16)]
  }

  /** The cast: `None` is the `CastError`. */
  function Cast(s: string): (r: Option<Id>)
    ensures r.Some? <==> |s| == ID_DIGITS && IsHexText(s)
  {
    if |s| == ID_DIGITS && IsHexText(s) then Some(Value(s)) else None
  }

  /** `error.message` of the `CastError` for `value` on a query of `model`. */
  function CastError(value: string, model: string): string {
    "Cast to ObjectId failed for value \"" + value + "\" (type string) at path \"_id\" for model \"" + model + "\""
  }

  /** Every id an `ObjectId` can hold is named by its 24-digit text. */
  lemma {:induction false} ValueOfText(n: nat, k: nat)
    requires n < Pow16(k)
    ensures IsHexText(Text(n, k))
    ensures Value(Text(n, k)) == n
  {
    var s := Text(n, k);
    assert IsHexText(s) by {
      forall i | 0 <= i < |s|
        ensures Hex.DigitValue(s[i]).Some?
      {
        assert Hex.IsLowerHexDigit(s[i]);
      }
    }
    if k > 0 {
      ValueOfText(n / 16, k - 1);
      assert s[..|s| - 1] == Text(n / 16, k - 1);
      var d := Hex.DigitChar(n % 16);
      assert s[|s| - 1] == d;
      assert Hex.DigitValue(d) == Some(n % 16);
    }
  }

  /** Reading the text of an id back through the cast gives the id. */
  lemma CastText(n: nat)
    requires n < Pow16(ID_DIGITS)
    ensures Cast(Text(n, ID_DIGITS)) == Some(n)
  {
    ValueOfText(n, ID_DIGITS);
  }

  /** A lower-case digit string is the text of the value it spells: the cast loses nothing. */
  lemma {:induction false} TextOfValue(s: string)
    requires forall i :: 0 <= i < |s| ==> Hex.IsLowerHexDigit(s[i])
    ensures IsHexText(s)
    ensures Text(Value(s), |s|) == s
  {
    assert IsHexText(s) by {
      forall i | 0 <= i < |s|
        ensures Hex.DigitValue(s[i]).Some?
      {
        assert Hex.IsLowerHexDigit(s[i]);
      }
    }
    if s != [] {
      var init := s[..|s| - 1];
      var c := s[|s| - 1];
      var d := Hex.DigitValue(c).value;
      TextOfValue(init);
      var n := Value(s);
      assert n == Value(init) * 16 + d;
      assert n / 16 == Value(init) && n % 16 == d;
      assert Hex.DigitChar(d) == c;
      assert s == init + [c];
    }
  }
}

/** Store-native document identities (BSON ObjectIds) and their string form.

    `ObjectId.is_valid(s)` accepts exactly the 24-character strings of
    hexadecimal digits, in either case; `ObjectId(s)` reads the twelve bytes
    they spell, and `str(oid)` prints them back as 24 lower-case digits.  An
    `ObjectId` here is that printed form. */
module ObjectIds {
  import opened Wrappers
  import Text

  const HexLength := 24

  predicate IsHexDigit(c: char) {
    '0' <= c <= '9' || 'a' <= c <= 'f' || 'A' <= c <= 'F'
  }

  predicate IsLowerHexDigit(c: char) {
    '0' <= c <= '9' || 'a' <= c <= 'f'
  }

  /** `ObjectId.is_valid(s)` for a string argument. */
  predicate IsValid(s: string) {
    |s| == HexLength && forall i :: 0 <= i < |s| ==> IsHexDigit(s[i])
  }

  /** An identity, held as its canonical printed form `str(oid)`. */
  datatype ObjectId = ObjectId(hex: string)

  /** The printed form of a real ObjectId: 24 lower-case hex digits. */
  predicate Canonical(o: ObjectId) {
    |o.hex| == HexLength && forall i :: 0 <= i < |o.hex| ==> IsLowerHexDigit(o.hex[i])
  }

  /** `ObjectId(s)`, or None where the constructor would raise `InvalidId`. */
  function Parse(s: string): (r: Option<ObjectId>)
    ensures r.Some? <==> IsValid(s)
    ensures r.Some? ==> Canonical(r.value) && r.value.hex == Text.Lower(s)
  {
    if IsValid(s) then Some(ObjectId(Text.Lower(s))) else None
  }

  /** Printing an identity and reading it back gives the same identity. */
  lemma ParsePrinted(o: ObjectId)
    requires Canonical(o)
    ensures Parse(o.hex) == Some(o)
  {
    assert Text.IsLower(o.hex);
    Text.LowerOfLower(o.hex);
  }

  /** Two strings name the same identity exactly when they agree up to the
      case of their letters. */
  lemma ParseIgnoresCase(s: string)
    ensures Parse(Text.Lower(s)) == Parse(s)
  {
    Text.LowerIdempotent(s);
  }

  /** A valid string is its own printed form exactly when it has no upper-case
      letter. */
  lemma PrintedFormIsInput(s: string)
    requires IsValid(s)
    ensures Parse(s).value.hex == s <==> Text.IsLower(s)
  {
    if Text.IsLower(s) {
      Text.LowerOfLower(s);
    } else {
      var i :| 0 <= i < |s| && Text.IsUpper(s[i]);
      assert Text.Lower(s)[i] != s[i];
    }
  }

  function DigitValue(c: char): nat {
    if '0' <= c <= '9' then c as int - '0' as int
    else if 'a' <= c <= 'f' then c as int - 'a' as int + 10
    else if 'A' <= c <= 'F' then c as int - 'A' as int + 10
    else 0
  }

  /** The number the digits spell, most significant first. */
  function HexValue(s: string): nat {
    if |s| == 0 then 0 else HexValue(s[..|s| - 1]) * 16 + DigitValue(s[|s| - 1])
  }

  /** The position of an identity in the store's `_id` order: the twelve bytes
      read as one big-endian number. */
  function Rank(o: ObjectId): nat {
    HexValue(o.hex)
  }
  /** Lower-case digits with the same value are the same digit. */
  lemma DigitValueInjective(c: char, d: char)
    requires IsLowerHexDigit(c) && IsLowerHexDigit(d) && DigitValue(c) == DigitValue(d)
    ensures c == d
  {
  }

  lemma PlaceValue(x: nat, y: nat, d: nat, e: nat)
    requires d < 16 && e < 16 && x * 16 + d == y * 16 + e
    ensures x == y && d == e
  {
  }

  /** Strings of lower-case digits of one length spell different numbers
      when they differ. */
  lemma {:induction false} HexValueInjective(a: string, b: string)
    requires |a| == |b|
    requires forall i :: 0 <= i < |a| ==> IsLowerHexDigit(a[i])
    requires forall i :: 0 <= i < |b| ==> IsLowerHexDigit(b[i])
    requires HexValue(a) == HexValue(b)
    ensures a == b
    decreases |a|
  {
    if |a| > 0 {
      var n := |a| - 1;
      PlaceValue(HexValue(a[..n]), HexValue(b[..n]), DigitValue(a[n]), DigitValue(b[n]));
      HexValueInjective(a[..n], b[..n]);
      DigitValueInjective(a[n], b[n]);
      assert a == a[..n] + [a[n]] && b == b[..n] + [b[n]];
    }
  }

  /** The `_id` order is strict on real identities: two identities of the
      same rank are the same identity. */
  lemma RankInjective(o1: ObjectId, o2: ObjectId)
    requires Canonical(o1) && Canonical(o2) && Rank(o1) == Rank(o2)
    ensures o1 == o2
  {
    HexValueInjective(o1.hex, o2.hex);
  }
}

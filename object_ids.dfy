/**
 * How `findById` casts a request's id string to an ObjectId before looking
 * it up. A string casts when it is 24 hex digits (in either case) or 12
 * characters long (one byte per character); any other string makes the
 * cast throw. Different spellings of one ObjectId find the same document,
 * so lookups go through `Canonical`, the 24 lower-case hex digits that the
 * ObjectId prints as.
 */
module ObjectIds {

  /** A hex digit, as an ObjectId's 24-character form is written in. */
  predicate IsHexDigit(c: char) {
    '0' <= c <= '9' || 'a' <= c <= 'f' || 'A' <= c <= 'F'
  }

  predicate IsLowerHexDigit(c: char) {
    '0' <= c <= '9' || 'a' <= c <= 'f'
  }

  /** A string that casts to an ObjectId: 12 characters, or 24 hex digits. */
  predicate IsObjectId(id: string) {
    |id| == 12 || (|id| == 24 && forall c :: c in id ==> IsHexDigit(c))
  }

  /** The spelling an ObjectId prints as: 24 lower-case hex digits. */
  predicate IsCanonicalId(id: string) {
    |id| == 24 && forall c :: c in id ==> IsLowerHexDigit(c)
  }

  /** The lower-case form of a hex digit. */
  function LowerHex(c: char): (r: char)
    requires IsHexDigit(c)
    ensures IsLowerHexDigit(r)
    ensures IsLowerHexDigit(c) ==> r == c
    ensures 'A' <= c <= 'F' ==> r as int == c as int + 32
  {
    if 'A' <= c <= 'F' then (c as int + 32) as char else c
  }

  /** The hex digit of a value below 16. */
  function HexDigit(n: nat): (c: char)
    requires n < 16
    ensures IsLowerHexDigit(c)
  {
    "0123456789abcdef"[n]
  }

  /** The byte a character of a 12-character id stands for: its low eight bits. */
  function Byte(c: char): (b: nat)
    ensures b < 256
  {
    c as int % 256
  }

  /** Distinct values below 16 have distinct hex digits. */
  lemma HexDigitInjective(m: nat, n: nat)
    requires m < 16 && n < 16
    ensures HexDigit(m) == HexDigit(n) <==> m == n
  {
  }

  /** The lower-case form of a string of hex digits, digit by digit. */
  function LowerCase(s: string): (r: string)
    requires forall c :: c in s ==> IsHexDigit(c)
    ensures |r| == |s|
    ensures forall i :: 0 <= i < |s| ==> r[i] == LowerHex(s[i])
  {
    if s == [] then [] else [LowerHex(s[0])] + LowerCase(s[1..])
  }

  /**
   * The hex encoding of a string taken one byte per character: the low
   * eight bits of each character become two hex digits.
   */
  function HexOfBytes(s: string): (r: string)
    ensures |r| == 2 * |s|
    ensures forall c :: c in r ==> IsLowerHexDigit(c)
    ensures forall i :: 0 <= i < |s| ==>
              r[2 * i] == HexDigit(Byte(s[i]) / 16) && r[2 * i + 1] == HexDigit(Byte(s[i]) % 16)
  {
    if s == [] then []
    else
      var b := Byte(s[0]);
      [HexDigit(b / 16), HexDigit(b % 16)] + HexOfBytes(s[1..])
  }

  /**
   * The canonical spelling of a castable id: the 24-digit form in lower
   * case, or the hex encoding of the 12-byte form.
   */
  function Canonical(id: string): (c: string)
    requires IsObjectId(id)
    ensures IsCanonicalId(c)
    ensures |id| == 24 ==> forall i :: 0 <= i < 24 ==> c[i] == LowerHex(id[i])
    ensures |id| == 12 ==> c == HexOfBytes(id)
  {
    if |id| == 24 then LowerCase(id) else HexOfBytes(id)
  }

  /**
   * A canonical id casts, is its own canonical spelling, and so
   * canonicalising twice changes nothing.
   */
  lemma CanonicalIsFixedPoint(id: string)
    requires IsObjectId(id)
    ensures IsObjectId(Canonical(id)) && Canonical(Canonical(id)) == Canonical(id)
  {
  }

  /** An id already in canonical spelling is left as it is. */
  lemma CanonicalOfCanonical(id: string)
    requires IsCanonicalId(id)
    ensures IsObjectId(id) && Canonical(id) == id
  {
  }

  /**
   * Two byte strings of one length have the same hex encoding exactly when
   * they hold the same bytes: the 12-byte form names one ObjectId per byte
   * string.
   */
  lemma HexOfBytesInjective(s: string, t: string)
    requires |s| == |t|
    ensures HexOfBytes(s) == HexOfBytes(t) <==> forall i :: 0 <= i < |s| ==> Byte(s[i]) == Byte(t[i])
  {
    if HexOfBytes(s) == HexOfBytes(t) {
      forall i | 0 <= i < |s| ensures Byte(s[i]) == Byte(t[i]) {
        var b, c := Byte(s[i]), Byte(t[i]);
        HexDigitInjective(b / 16, c / 16);
        HexDigitInjective(b % 16, c % 16);
      }
    } else {
      var r, q := HexOfBytes(s), HexOfBytes(t);
      var k :| 0 <= k < |r| && r[k] != q[k];
      var i := k / 2;
      assert k == 2 * i || k == 2 * i + 1;
    }
  }

  /** Two 12-character ids denote the same ObjectId exactly when their bytes agree. */
  lemma SameBytesSameObjectId(a: string, b: string)
    requires |a| == 12 && |b| == 12
    ensures Canonical(a) == Canonical(b) <==> forall i :: 0 <= i < 12 ==> Byte(a[i]) == Byte(b[i])
  {
    HexOfBytesInjective(a, b);
  }

  /** Two 24-digit spellings that differ only in letter case name the same ObjectId. */
  lemma CaseDoesNotMatter(a: string, b: string)
    requires IsObjectId(a) && IsObjectId(b) && |a| == 24 && |b| == 24
    requires forall i :: 0 <= i < 24 ==> LowerHex(a[i]) == LowerHex(b[i])
    ensures Canonical(a) == Canonical(b)
  {
  }
}

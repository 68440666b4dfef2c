/**
 Bytes, little-endian field reads and decimal strings, as the control-code walkers use them.

 A control-code buffer is a sequence of bytes.  The walkers cast pointers into it to packed
 structures; here every such read is an accessor that is total (a byte outside the buffer reads
 as zero), and the places that matter carry a separate statement that the read is inside.
 */
module Bytes {
  type byte = x: int | 0 <= x < 256

  const TWO_32: nat := 0x1_0000_0000
  const TWO_64: nat := 0x1_0000_0000_0000_0000

  function ByteAt(b: seq<byte>, i: nat): byte {
    if i < |b| then b[i] else 0
  }

  function U24At(b: seq<byte>, i: nat): (r: nat)
    ensures r < 0x100_0000
  {
    ByteAt(b, i) + 0x100 * ByteAt(b, i + 1) + 0x1_0000 * ByteAt(b, i + 2)
  }

  function U32At(b: seq<byte>, i: nat): (r: nat)
    ensures r < TWO_32
  {
    U24At(b, i) + 0x100_0000 * ByteAt(b, i + 3)
  }

  function U64At(b: seq<byte>, i: nat): (r: nat)
    ensures r < TWO_64
  {
    U32At(b, i) + TWO_32 * U32At(b, i + 4)
  }

  /** The stretch [lo, hi) of a buffer, empty when it is not inside. */
  function Slice(b: seq<byte>, lo: nat, hi: nat): (r: seq<byte>)
    ensures lo <= hi <= |b| ==> |r| == hi - lo
  {
    if lo <= hi <= |b| then b[lo..hi] else []
  }

  /** The word at byte k of a stretch is the word at byte lo + k of the buffer. */
  lemma WordOfSlice(b: seq<byte>, lo: nat, hi: nat, k: nat)
    requires lo <= hi <= |b| && lo + k + 4 <= hi
    ensures U32At(Slice(b, lo, hi), k) == U32At(b, lo + k)
  {
    var s := Slice(b, lo, hi);
    assert s[k] == b[lo + k] && s[k + 1] == b[lo + k + 1];
    assert s[k + 2] == b[lo + k + 2] && s[k + 3] == b[lo + k + 3];
  }

  // ----- decimal strings (std::to_string) -----

  function Digit(d: nat): (c: char)
    requires d < 10
    ensures '0' <= c <= '9'
  {
    ('0' as int + d) as char
  }

  function Decimal(n: nat): (s: string)
    ensures s != []
    ensures forall c :: c in s ==> '0' <= c <= '9'
  {
    if n < 10 then [Digit(n)] else Decimal(n / 10) + [Digit(n % 10)]
  }

  /** What a string of digits says, most significant digit first. */
  function ValueOf(s: string): nat
    requires AllDigits(s)
  {
    if s == [] then 0 else 10 * ValueOf(s[..|s| - 1]) + (s[|s| - 1] as int - '0' as int)
  }

  predicate AllDigits(s: string) {
    forall i :: 0 <= i < |s| ==> '0' <= s[i] <= '9'
  }

  /** A number as one writes it: digits, and a leading zero only for zero itself. */
  predicate Numeral(s: string) {
    s != [] && AllDigits(s) && (s[0] == '0' ==> s == "0")
  }

  /** A number's string is a numeral that says that number ... */
  lemma {:induction false} DecimalMeaning(n: nat)
    ensures Numeral(Decimal(n)) && ValueOf(Decimal(n)) == n
  {
    var s := Decimal(n);
    if n >= 10 {
      DecimalMeaning(n / 10);
      assert s[..|s| - 1] == Decimal(n / 10) && s[0] == Decimal(n / 10)[0];
    }
  }

  /** ... and is the only one. */
  lemma {:induction false} DecimalUnique(s: string)
    requires Numeral(s)
    ensures s == Decimal(ValueOf(s))
    decreases |s|
  {
    var rest, last := s[..|s| - 1], s[|s| - 1] as int - '0' as int;
    assert s == rest + [Digit(last)];
    if rest != [] {
      assert rest[0] == s[0];
      DecimalUnique(rest);
      assert ValueOf(rest) > 0;
      assert ValueOf(s) / 10 == ValueOf(rest) && ValueOf(s) % 10 == last;
    }
  }

  lemma DecimalInjective(m: nat, n: nat)
    requires Decimal(m) == Decimal(n)
    ensures m == n
  {
    DecimalMeaning(m);
    DecimalMeaning(n);
  }
}

/** value_hex: how the digits of an apply become bytes, and the text in which read answers bytes. */
module HexValues {
  import opened Common
  import opened ByteMemory
  import opened JsonCodec

  /**
    std::stoul of two characters in base 16, cut to a byte; None when it throws. Leading white space and a sign
    are accepted, a negative number wraps, and what follows the last digit is ignored.
  */
  function HexPair(first: char, second: char): (r: Option<Byte>)
    ensures Nibble(first) >= 0 && Nibble(second) >= 0 ==> r == Some(16 * Nibble(first) + Nibble(second))
    ensures r.None? <==> Nibble(first) < 0 && (Nibble(second) < 0 || !(IsSpace(first) || first == '+' || first == '-'))
  {
    if Nibble(first) >= 0 then Some(if Nibble(second) >= 0 then 16 * Nibble(first) + Nibble(second) else Nibble(first))
    else if Nibble(second) < 0 then None
    else if IsSpace(first) || first == '+' then Some(Nibble(second))
    else if first == '-' then Some((256 - Nibble(second)) % 256)
    else None
  }

  /** What the digits of value_hex say; a malformed pair makes the conversion throw. */
  datatype Value = OddLength | Malformed | Bytes(bytes: seq<Byte>)

  /** The values of the pairs of digits; a last digit without a partner is not looked at. */
  function PairValues(digits: string): Option<seq<Byte>> {
    if |digits| < 2 then Some([])
    else
      var first, more := HexPair(digits[0], digits[1]), PairValues(digits[2..]);
      if first.None? || more.None? then None else Some([first.value] + more.value)
  }

  /** Byte i comes from pair i, and there are bytes exactly when every pair has a value. */
  lemma {:induction false} PairValuesAt(digits: string)
    ensures var r := PairValues(digits);
            && (r.Some? <==> forall i | 0 <= i < |digits| / 2 :: HexPair(digits[2 * i], digits[2 * i + 1]).Some?)
            && (r.Some? ==> |r.value| == |digits| / 2
                            && forall i | 0 <= i < |r.value| :: HexPair(digits[2 * i], digits[2 * i + 1]) == Some(r.value[i]))
  {
    if |digits| >= 2 {
      var rest := digits[2..];
      PairValuesAt(rest);
      assert digits[2 * 0] == digits[0] && digits[2 * 0 + 1] == digits[1];
      assert forall i | 1 <= i < |digits| / 2 :: rest[2 * (i - 1)] == digits[2 * i] && rest[2 * (i - 1) + 1] == digits[2 * i + 1];
      if PairValues(rest).None? {
        var i :| 0 <= i < |rest| / 2 && HexPair(rest[2 * i], rest[2 * i + 1]).None?;
        assert HexPair(digits[2 * (i + 1)], digits[2 * (i + 1) + 1]).None?;
      } else {
        var more := PairValues(rest).value;
        forall i | 1 <= i < |digits| / 2 ensures HexPair(digits[2 * i], digits[2 * i + 1]) == Some(more[i - 1]) {
          assert HexPair(rest[2 * (i - 1)], rest[2 * (i - 1) + 1]) == Some(more[i - 1]);
        }
      }
    }
  }

  /** The bytes a loop has gathered in front of those of the pairs that are left. */
  function Joined(out: seq<Byte>, rest: Option<seq<Byte>>): Option<seq<Byte>> {
    if rest.None? then None else Some(out + rest.value)
  }

  /** The pairs from number k on. */
  function PairsFrom(digits: string, k: nat): Option<seq<Byte>>
    requires 2 * k <= |digits|
  {
    PairValues(digits[2 * k..])
  }

  lemma PairsFromStart(digits: string)
    ensures Joined([], PairsFrom(digits, 0)) == PairValues(digits)
  {
    assert digits[2 * 0..] == digits;
    if PairValues(digits).Some? {
      assert [] + PairValues(digits).value == PairValues(digits).value;
    }
  }

  lemma PairsNext(digits: string, k: nat, out: seq<Byte>)
    requires 2 * k + 1 < |digits|
    ensures var pair := HexPair(digits[2 * k], digits[2 * k + 1]);
            Joined(out, PairsFrom(digits, k))
            == if pair.None? then None else Joined(out + [pair.value], PairsFrom(digits, k + 1))
  {
    assert digits[2 * k..][2..] == digits[2 * (k + 1)..];
    var rest := PairsFrom(digits, k + 1);
    if rest.Some? && HexPair(digits[2 * k], digits[2 * k + 1]).Some? {
      Associate(out, [HexPair(digits[2 * k], digits[2 * k + 1]).value], rest.value);
    }
  }

  function ValueOf(digits: string): (r: Value)
    ensures r.OddLength? <==> |digits| % 2 == 1
  {
    if |digits| % 2 == 1 then OddLength
    else
      match PairValues(digits)
      case None => Malformed
      case Some(bytes) => Bytes(bytes)
  }

  function ByteText(b: Byte): (r: string)
    ensures |r| == 2
  {
    [HexDigit(b / 16), HexDigit(b % 16)]
  }

  /** The text that read answers, two lower-case digits for each byte. */
  function HexText(bytes: seq<Byte>): (r: string)
    ensures |r| % 2 == 0
  {
    if bytes == [] then "" else ByteText(bytes[0]) + HexText(bytes[1..])
  }

  lemma DigitValue(n: nat)
    requires n < 16
    ensures Nibble(HexDigit(n)) == n
  {
    var c := HexDigit(n);
    assert if n < 10 then c == ('0' as int + n) as char else c == ('a' as int + n - 10) as char;
  }

  lemma ByteTextIsPair(b: Byte)
    ensures HexPair(ByteText(b)[0], ByteText(b)[1]) == Some(b)
  {
    DigitValue(b / 16);
    DigitValue(b % 16);
  }

  lemma PairInFront(pair: string, digits: string)
    requires |pair| == 2
    ensures PairValues(pair + digits)
         == if HexPair(pair[0], pair[1]).None? || PairValues(digits).None? then None
            else Some([HexPair(pair[0], pair[1]).value] + PairValues(digits).value)
  {
    assert (pair + digits)[2..] == digits;
  }

  lemma {:induction false} HexTextPairs(bytes: seq<Byte>)
    ensures PairValues(HexText(bytes)) == Some(bytes)
  {
    if bytes != [] {
      HexTextPairs(bytes[1..]);
      ByteTextIsPair(bytes[0]);
      PairInFront(ByteText(bytes[0]), HexText(bytes[1..]));
      assert bytes == [bytes[0]] + bytes[1..];
    }
  }

  /** The hex text of some bytes, given to apply, stands for those bytes. */
  lemma HexTextIsValue(bytes: seq<Byte>)
    ensures ValueOf(HexText(bytes)) == Bytes(bytes)
  {
    HexTextPairs(bytes);
  }
}

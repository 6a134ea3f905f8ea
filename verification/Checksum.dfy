/** The one's-complement Internet checksum (RFC 1071 section 1) as `_checksum16` computes it, and why a
    receiver that sums a block with its checksum in place gets 0xFFFF. */
module Checksum {
  import opened Bytes

  /** Sum of the big-endian 16-bit words; an odd last byte is padded with a zero byte. */
  function WordSum(data: bytes): (total: nat)
  {
    if data == [] then 0
    else if |data| == 1 then data[0] * 0x100
    else (data[0] as int) * 0x100 + data[1] + WordSum(data[2..])
  }

  /** End-around carry until the sum fits in 16 bits. */
  function Fold(total: nat): (folded: nat)
    ensures folded < TWO16
    ensures folded % 0xFFFF == total % 0xFFFF
    ensures folded == 0 <==> total == 0
  {
    if total < TWO16 then total else
      assert total == total / TWO16 * 0xFFFF + (total % TWO16 + total / TWO16);
      ModShift(total / TWO16, total % TWO16 + total / TWO16);
      Fold(total % TWO16 + total / TWO16)
  }

  lemma ModShift(k: nat, r: nat)
    ensures (k * 0xFFFF + r) % 0xFFFF == r % 0xFFFF
  {
  }

  function Internet(data: bytes): (csum: nat)
    ensures csum < TWO16
  {
    0xFFFF - Fold(WordSum(data))
  }

  /** The receiver's test: the folded sum of the block, checksum field included, is all ones. */
  predicate Verifies(data: bytes) { Fold(WordSum(data)) == 0xFFFF }

  /** The loop of `_checksum16`. */
  method Checksum16(input: bytes) returns (csum: nat)
    ensures csum == Internet(input)
  {
    hide WordSum, Fold;
    var data := if |input| % 2 != 0 then input + [0] else input;
    if |input| % 2 != 0 { PadOdd(input); }
    var total, i := 0, 0;
    assert data[0..] == data;
    while i < |data|
      invariant i % 2 == 0 && i <= |data|
      invariant total + WordSum(data[i..]) == WordSum(input)
    {
      NextWord(data, i);
      total := total + (data[i] as int) * 0x100 + data[i + 1];
      i := i + 2;
    }
    NextWord(data, i);
    while total >= TWO16
      invariant total >= 0 && Fold(total) == Fold(WordSum(input))
      decreases total
    {
      FoldStep(total);
      total := total % TWO16 + total / TWO16;
    }
    FoldStep(total);
    csum := 0xFFFF - total;
  }

  lemma NextWord(data: bytes, i: nat)
    requires i <= |data| && (|data| - i) % 2 == 0
    ensures i == |data| ==> WordSum(data[i..]) == 0
    ensures i < |data| ==>
              && i + 1 < |data|
              && WordSum(data[i..]) == (data[i] as int) * 0x100 + data[i + 1] + WordSum(data[i + 2..])
  {
    if i < |data| { assert data[i..][2..] == data[i + 2..]; }
  }

  lemma FoldStep(total: nat)
    ensures total < TWO16 ==> Fold(total) == total
    ensures total >= TWO16 ==>
              total % TWO16 + total / TWO16 < total && Fold(total % TWO16 + total / TWO16) == Fold(total)
  {
  }

  lemma {:induction false} PadOdd(data: bytes)
    requires |data| % 2 != 0
    ensures WordSum(data + [0]) == WordSum(data)
  {
    if |data| > 1 {
      PadOdd(data[2..]);
      assert (data + [0])[2..] == data[2..] + [0];
    }
  }

  lemma {:induction false} WordSumAppend(a: bytes, b: bytes)
    requires |a| % 2 == 0
    ensures WordSum(a + b) == WordSum(a) + WordSum(b)
  {
    if a == [] {
      assert a + b == b;
    } else {
      WordSumAppend(a[2..], b);
      assert (a + b)[2..] == a[2..] + b;
    }
  }

  /** Whatever stands around a zeroed checksum field at an even offset, storing the checksum there, or the
      0xFFFF that UDP sends for a computed zero, makes the block verify. */
  lemma {:induction false} StoredChecksumVerifies(before: bytes, after: bytes)
    requires |before| % 2 == 0
    ensures var csum := Internet(before + [0, 0] + after);
            && Verifies(before + Put16(Big, csum) + after)
            && (csum == 0 ==> Verifies(before + Put16(Big, 0xFFFF) + after))
  {
    var zeroed := WordSum(before + [0, 0] + after);
    var csum := Internet(before + [0, 0] + after);
    FieldAdds(before, 0, after);
    FieldAdds(before, csum, after);
    FieldAdds(before, 0xFFFF, after);
    assert zeroed == WordSum(before) + WordSum(after);
    AllOnes(zeroed, csum);
    if csum == 0 { AllOnes(zeroed, 0xFFFF); }
  }

  lemma FieldAdds(before: bytes, field: nat, after: bytes)
    requires |before| % 2 == 0 && field < TWO16
    ensures WordSum(before + Put16(Big, field) + after) == WordSum(before) + field + WordSum(after)
  {
    WordSumAppend(before + Put16(Big, field), after);
    WordSumAppend(before, Put16(Big, field));
  }

  lemma AllOnes(total: nat, field: nat)
    requires field < TWO16 && (field == 0xFFFF - Fold(total) || (field == 0xFFFF && Fold(total) == 0xFFFF))
    ensures Fold(total + field) == 0xFFFF
  {
    hide Fold;
    var q, r := total / 0xFFFF, total % 0xFFFF;
    assert Fold(total) % 0xFFFF == r;
    assert total + field == q * 0xFFFF + (r + field);
    ModShift(q, r + field);
    assert (r + field) % 0xFFFF == 0;
  }
}

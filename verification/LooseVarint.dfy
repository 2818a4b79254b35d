/**
 Every encoding of a number, the shortest and the longer ones: what permissive parsers must
 accept. An encoding is described by its bytes, without reference to any reader or writer.
 */
module LooseVarint {
  import opened Bytes
  import opened Varint

  /** The number whose base-128 digits, lowest first, are the low seven bits of the bytes. */
  function Digits(s: Bytes): nat {
    if s == [] then 0 else s[0] % 128 + 128 * Digits(s[1..])
  }

  /** All bytes but the last have their top bit set, and their digits are those of `v`. */
  predicate Encodes(s: Bytes, v: nat) {
    && s != [] && s[|s| - 1] < 128 && (forall i | 0 <= i < |s| - 1 :: s[i] >= 128)
    && Digits(s) == v
  }

  /** The encoding of `v` in `n` bytes, if `n` digits are enough: further digits are zero. */
  function Padded(v: nat, n: nat): (r: Bytes)
    requires n > 0
    ensures |r| == n
  {
    if n == 1 then [v % 128] else [v % 128 + 128] + Padded(v / 128, n - 1)
  }

  lemma {:induction false} PaddedEncodes(v: nat, n: nat)
    requires n >= |Encode(v)|
    ensures Encodes(Padded(v, n), v)
    decreases n
  {
    hide Encodes, Encode, Digits;
    ShortestHasNoZero(v);
    ShortestHasNoZero(v / 128);
    EncodesStep(Padded(v, n), v);
    if n > 1 {
      PaddedEncodes(v / 128, n - 1);
      assert Padded(v, n)[1..] == Padded(v / 128, n - 1);
    }
  }

  lemma EncodesStep(s: Bytes, v: nat)
    requires s != []
    ensures |s| == 1 ==> (Encodes(s, v) <==> v < 128 && s == [v])
    ensures |s| > 1 ==> (Encodes(s, v) <==> s[0] == v % 128 + 128 && Encodes(s[1..], v / 128))
  {
    var t := s[1..];
    assert t == [] ==> Digits(t) == 0;
    assert forall k | 0 < k < |s| :: s[k] == t[k - 1];
  }

  /** There is one encoding of each length, from the shortest on; the shortest is the encoder's. */
  lemma {:induction false} EncodingIsPadded(s: Bytes, v: nat)
    ensures Encodes(s, v) <==> |s| >= |Encode(v)| && s == Padded(v, |s|)
    ensures Encodes(s, v) && |s| == |Encode(v)| ==> s == Encode(v)
    decreases |s|
  {
    hide Encodes, Encode, Digits;
    ShortestHasNoZero(v);
    ShortestHasNoZero(v / 128);
    if s == [] {
      NothingEncodes(v);
    } else {
      EncodesStep(s, v);
      assert s == [s[0]] + s[1..];
      if |s| > 1 {
        EncodingIsPadded(s[1..], v / 128);
      }
    }
  }

  lemma NothingEncodes(v: nat)
    ensures !Encodes([], v)
  {
  }

  lemma ShortestHasNoZero(v: nat)
    ensures v >= 128 ==> Encode(v) == [v % 128 + 128] + Encode(v / 128)
    ensures v < 128 ==> Encode(v) == [v]
  {
  }

  // ---------------------------------------------------------------- the permissive decoders

  /** The bytes from index `i` on are an encoding of `v` that ends at index `n`. */
  ghost predicate StandsAt(data: Bytes, pos: nat, i: nat, v: nat, n: nat) {
    i < n && pos + n <= |data| && Encodes(data[pos + i..pos + n], v)
  }

  lemma StandsStep(data: Bytes, pos: nat, i: nat, v: nat, n: nat)
    requires pos + i < |data|
    ensures StandsAt(data, pos, i, v, n) <==>
      if data[pos + i] < 128 then n == i + 1 && v == data[pos + i]
      else v % 128 == data[pos + i] % 128 && StandsAt(data, pos, i + 1, v / 128, n)
  {
    if i < n && pos + n <= |data| {
      var s := data[pos + i..pos + n];
      assert s[0] == data[pos + i];
      if n == i + 1 {
        assert s[1..] == [];
      } else {
        assert s[1..] == data[pos + i + 1..pos + n];
        var t := s[1..];
        assert t[|t| - 1] == s[|s| - 1];
        assert forall k | 0 < k < |s| - 1 :: s[k] == t[k - 1];
      }
    }
  }

  /** From any byte on, the decoder reads a number exactly where an encoding of it stands that fits the width. */
  lemma {:induction false} DecodesExactlyFrom(data: Bytes, pos: nat, i: nat, w: Width, v: nat, n: nat)
    requires IsWidth(w) && i < w.maxLen
    ensures DecodeFrom(data, pos, i, w) == Success((v, n)) <==>
      StandsAt(data, pos, i, v, n) && n <= w.maxLen && v < Capacity(w, i)
    decreases w.maxLen - i
  {
    hide Capacity, StandsAt;
    if pos + i < |data| {
      StandsStep(data, pos, i, v, n);
      CapacityStep(w, i, v);
      CapacityStep(w, i, 0);
      if data[pos + i] >= 128 {
        if i < w.maxLen - 1 {
          DecodesExactlyFrom(data, pos, i + 1, w, v / 128, n);
          NextDigit(data, pos, i, w, v, n);
          CapacityOfDigits(w, i, v);
        } else {
          assert DecodeFrom(data, pos, i + 1, w).Failure?;
          StandsBefore(data, pos, i + 1, v / 128, n);
        }
      }
    } else {
      StandsBefore(data, pos, i, v, n);
    }
  }

  lemma StandsBefore(data: Bytes, pos: nat, i: nat, v: nat, n: nat)
    ensures StandsAt(data, pos, i, v, n) ==> i < n && pos + i < |data|
  {
  }

  lemma CapacityOfDigits(w: Width, i: nat, v: nat)
    requires IsWidth(w) && i < w.maxLen - 1
    ensures v < Capacity(w, i) <==> v / 128 < Capacity(w, i + 1)
  {
    assert Capacity(w, i) == 128 * Capacity(w, i + 1);
  }

  lemma NextDigit(data: Bytes, pos: nat, i: nat, w: Width, v: nat, n: nat)
    requires pos + i < |data| && data[pos + i] >= 128 && i < w.maxLen - 1
    ensures DecodeFrom(data, pos, i, w) == Success((v, n)) <==>
      v % 128 == data[pos + i] % 128 && DecodeFrom(data, pos, i + 1, w) == Success((v / 128, n))
  {
  }

  /**
   The permissive decoders read a number from some bytes exactly if these bytes are an encoding
   of it, of any length up to the longest for the width, and it fits the width.
   */
  lemma DecodesExactlyEncodings(data: Bytes, pos: nat, w: Width, v: nat, n: nat)
    requires IsWidth(w)
    ensures Decode(data, pos, w) == Success((v, n)) <==>
      0 < n <= w.maxLen && pos + n <= |data| && Encodes(data[pos..pos + n], v) && v < Capacity(w, 0)
  {
    DecodesExactlyFrom(data, pos, 0, w, v, n);
  }
}

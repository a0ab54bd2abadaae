/** The repeating-key XOR cipher of src/frame/XorCipher.ts. */
module XorCiphers {
  import opened Bits
  import opened Bytes

  /** The keystream of `key` added to `data`. */
  function Mask(key: Bytes, data: Bytes): (r: Bytes)
    requires key != []
    ensures |r| == |data|
  {
    seq(|data|, i requires 0 <= i < |data| => XorByte(data[i], key[i % |key|]))
  }

  class XorCipher {
    const key: Bytes

    constructor (key: Bytes)
      ensures this.key == key
    {
      this.key := key;
    }

    /** The source's constructor, which refuses an empty key: no object then. */
    static method Create(key: Bytes) returns (c: XorCipher?)
      ensures c == null <==> key == []
      ensures c != null ==> c.key == key && fresh(c)
    {
      if key == [] {
        c := null;
      } else {
        c := new XorCipher(key);
      }
    }

    method Apply(data: Bytes) returns (r: Bytes)
      requires key != []
      ensures r == Mask(key, data)
    {
      var out := new byte[|data|];
      for i := 0 to |data|
        invariant forall k :: 0 <= k < i ==> out[k] == Mask(key, data)[k]
      {
        out[i] := XorByte(data[i], key[i % |key|]);
      }
      r := out[..];
    }
  }

  lemma XorByteCancels(a: byte, b: byte)
    ensures XorByte(XorByte(a, b), b) == a
  {
    XorCancels(a as nat, b as nat);
  }

  /** What the cipher adds to a message is its key, over and over, whatever the message. */
  lemma KeystreamIsRepeatedKey(key: Bytes, data: Bytes, q: nat, j: nat)
    requires key != [] && j < |key| && q * |key| + j < |data|
    ensures var i := q * |key| + j; XorByte(Mask(key, data)[i], data[i]) == key[j]
  {
    var i := q * |key| + j;
    QuotientIs(i, |key|, q, j);
    XorCommutes(data[i] as nat, key[j] as nat);
    XorByteCancels(key[j], data[i]);
  }

  /** Applying the cipher twice with the same key gives the data back. */
  lemma MaskIsInvolution(key: Bytes, data: Bytes)
    requires key != []
    ensures Mask(key, Mask(key, data)) == data
  {
    forall i | 0 <= i < |data| ensures Mask(key, Mask(key, data))[i] == data[i] {
      XorByteCancels(data[i], key[i % |key|]);
    }
  }
}

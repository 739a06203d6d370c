/** Which bytes of its input `wyhash::hash` reads. */
module HashBytes {

  function Bytes(from: nat, to: nat): (bytes: set<nat>)
    ensures forall k: nat :: k in bytes <==> (from <= k < to)
    decreases if from < to then to - from else 0
  {
    if from >= to then {} else {from} + Bytes(from + 1, to)
  }

  /** A read of `width` bytes at `p`, which must lie inside the input. */
  method Read(len: nat, p: nat, width: nat) returns (bytes: set<nat>)
    requires p + width <= len
    ensures bytes == Bytes(p, p + width)
  {
    bytes := Bytes(p, p + width);
  }

  /** `r3`: the first, the middle and the last of one to three bytes. */
  method ReadUpTo3(len: nat, k: nat) returns (bytes: set<nat>)
    requires 1 <= k <= 3 && k <= len
    ensures bytes == Bytes(0, k)
  {
    bytes := {0, k / 2, k - 1};
  }

  /** Two reads of four bytes, `apart` from each other. */
  method ReadPair(len: nat, p: nat, q: nat) returns (bytes: set<nat>)
    requires p + 4 <= len && q + 4 <= len
    ensures bytes == Bytes(p, p + 4) + Bytes(q, q + 4)
  {
    var first := Read(len, p, 4);
    var second := Read(len, q, 4);
    bytes := first + second;
  }

  /** Reads of eight bytes one after the other. */
  method ReadWords(len: nat, p: nat, words: nat) returns (bytes: set<nat>)
    requires p + 8 * words <= len
    ensures bytes == Bytes(p, p + 8 * words)
  {
    bytes := {};
    for w := 0 to words
      invariant bytes == Bytes(p, p + 8 * w)
    {
      var word := Read(len, p + 8 * w, 8);
      bytes := bytes + word;
    }
  }

  lemma Joined(from: nat, mid: nat, to: nat)
    requires from <= mid <= to
    ensures Bytes(from, mid) + Bytes(mid, to) == Bytes(from, to)
  {
  }

  /** The last two words reach back over what was read before. */
  lemma TailJoined(p: nat, len: nat)
    requires 16 <= len && len - 16 <= p <= len
    ensures Bytes(0, p) + Bytes(len - 16, len - 8) + Bytes(len - 8, len) == Bytes(0, len)
  {
  }

  /** Two words from the front and two from the back, each pair up to eight bytes apart. */
  lemma PairsJoined(len: nat, shift: nat)
    requires 4 <= len <= 16 && shift == (len / 8) * 4
    ensures shift + 4 <= len
    ensures Bytes(0, 4) + Bytes(shift, shift + 4) + (Bytes(len - 4, len) + Bytes(len - 4 - shift, len - shift)) == Bytes(0, len)
  {
    hide Bytes;
    assert shift == 0 || shift == 4 || (shift == 8 && len == 16);
  }

  /** Up to sixteen bytes: four reads that overlap as needed, or `r3`. */
  method ShortReads(len: nat) returns (bytes: set<nat>)
    requires len <= 16
    ensures bytes == Bytes(0, len)
  {
    bytes := {};
    assert Bytes(0, 0) == {};
    hide Bytes;
    if len >= 4 {
      var shift := (len / 8) * 4;
      PairsJoined(len, shift);
      var a := ReadPair(len, 0, shift);
      var b := ReadPair(len, len - 4, len - 4 - shift);
      bytes := a + b;
    } else if len > 0 {
      bytes := ReadUpTo3(len, len);
    }
  }

  /** For every length the reads stay inside the input and leave no byte of it out. */
  method HashReads(len: nat) returns (bytes: set<nat>)
    ensures bytes == Bytes(0, len)
  {
    if len <= 16 {
      bytes := ShortReads(len);
    } else {
      bytes := {};
      assert Bytes(0, 0) == {};
      hide Bytes;
      var p, i := 0, len;
      if i > 48 {
        while true
          invariant p + i == len && i > 48 && p >= 0 && bytes == Bytes(0, p)
          decreases i
        {
          var words := ReadWords(len, p, 6);
          bytes := bytes + words;
          Joined(0, p, p + 48);
          p, i := p + 48, i - 48;
          if i <= 48 {
            break;
          }
        }
      }
      while i > 16
        invariant p + i == len && p >= 0 && i > 0 && bytes == Bytes(0, p)
        decreases i
      {
        var words := ReadWords(len, p, 2);
        bytes := bytes + words;
        Joined(0, p, p + 16);
        p, i := p + 16, i - 16;
      }
      TailJoined(p, len);
      var a := Read(len, p + i - 16, 8);
      var b := Read(len, p + i - 8, 8);
      bytes := bytes + a + b;
    }
  }
}

/** Runs of bytes, and the words and keys stored in them. */
module Bytes {
  import opened Words
  import opened Accounts
  import opened LayoutReference

  /** `s` with `bytes` written at `at`. */
  function Put(s: seq<byte>, at: nat, bytes: seq<byte>): (r: seq<byte>)
    requires at + |bytes| <= |s|
    ensures |r| == |s|
  {
    s[..at] + bytes + s[at + |bytes|..]
  }

  /** `copy_from_slice`: overwrites the bytes from `at` on. */
  method CopyFromSlice(mem: array<byte>, at: nat, bytes: seq<byte>)
    requires at + |bytes| <= mem.Length
    modifies mem
    ensures mem[..] == Put(old(mem[..]), at, bytes)
  {
    forall k | 0 <= k < |bytes| {
      mem[at + k] := bytes[k];
    }
    assert mem[..] == Put(old(mem[..]), at, bytes);
  }

  // ----- Little-endian words

  function Encode(v: nat, k: nat): (s: seq<byte>)
    ensures |s| == k
  {
    if k == 0 then [] else [v % 256] + Encode(v / 256, k - 1)
  }

  function Decode(s: seq<byte>): nat {
    if s == [] then 0 else s[0] + 256 * Decode(s[1..])
  }

  function Limit(k: nat): nat {
    if k == 0 then 1 else 256 * Limit(k - 1)
  }

  lemma {:induction false} DecodeEncode(v: nat, k: nat)
    requires v < Limit(k)
    ensures Decode(Encode(v, k)) == v
  {
    if k > 0 {
      DecodeEncode(v / 256, k - 1);
      assert Encode(v, k)[1..] == Encode(v / 256, k - 1);
    }
  }

  lemma {:induction false} DecodeBound(s: seq<byte>)
    ensures Decode(s) < Limit(|s|)
  {
    if s != [] {
      DecodeBound(s[1..]);
    }
  }

  lemma LimitOfWord()
    ensures Limit(8) == TWO_TO_THE_64
  {
    assert Limit(4) == 256 * 256 * 256 * 256;
    assert Limit(8) == 256 * 256 * 256 * 256 * Limit(4);
  }

  function Le64(v: nat): (s: seq<byte>)
    ensures |s| == 8
  {
    Encode(v, 8)
  }

  lemma WordRoundTrip(v: u64)
    ensures Decode(Le64(v)) == v
  {
    LimitOfWord();
    DecodeEncode(v, 8);
  }

  /** The eight bytes at `at`, as a word. */
  function WordAt(buffer: seq<byte>, at: nat): (v: u64)
    requires at + 8 <= |buffer|
  {
    LimitOfWord();
    DecodeBound(buffer[at..at + 8]);
    Decode(buffer[at..at + 8])
  }

  lemma DecodeFour(s: seq<byte>)
    requires |s| == 4
    ensures Decode(s) == Half(s, 0)
  {
    var s1, s2, s3 := s[1..], s[2..], s[3..];
    assert s1[1..] == s2 && s2[1..] == s3 && s3[1..] == [];
    assert Decode(s3) == s[3] && Decode(s2) == s[2] + 256 * Decode(s3) && Decode(s1) == s[1] + 256 * Decode(s2);
  }

  lemma DecodeFourMore(s: seq<byte>)
    requires |s| >= 4
    ensures Decode(s) == Decode(s[..4]) + 0x1_0000_0000 * Decode(s[4..])
  {
    var s1, s2, s3, s4 := s[1..], s[2..], s[3..], s[4..];
    DecodeFour(s[..4]);
    assert s1[1..] == s2 && s2[1..] == s3 && s3[1..] == s4;
    assert Decode(s3) == s[3] + 256 * Decode(s4) && Decode(s2) == s[2] + 256 * Decode(s3);
    assert Decode(s1) == s[1] + 256 * Decode(s2);
  }

  /** Words are stored with their lowest byte first. */
  lemma WordIsLittleEndian(b: seq<byte>, at: nat)
    requires at + 8 <= |b|
    ensures WordAt(b, at) == Word(b, at)
  {
    var s := b[at..at + 8];
    DecodeFourMore(s);
    DecodeFour(s[..4]);
    DecodeFour(s[4..]);
  }

  lemma WrittenWord(b: seq<byte>, at: nat, v: u64)
    requires at + 8 <= |b| && b[at..at + 8] == Le64(v)
    ensures Word(b, at) == v
  {
    hide Decode, Encode;
    WordRoundTrip(v);
    WordIsLittleEndian(b, at);
  }

  /** The key stored at `at`. */
  function KeyAt(buffer: seq<byte>, at: nat): Pubkey
    requires at + 32 <= |buffer|
  {
    buffer[at..at + 32]
  }
}

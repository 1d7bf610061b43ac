/** How the engine turns the host's test-type string into the two flags that
    drive a run (iobench.cpp:45-46). The engine never rejects a type string:
    it compares it against two names per flag, so any string it does not know
    runs as a sequential read. */
module TestType {

  /** The two flags every later step reads. */
  datatype Flags = Flags(isWrite: bool, isRand: bool)

  /** The four test kinds the host offers, with the string it sends for each. */
  datatype Kind = SeqRead | SeqWrite | RandRead | RandWrite {

    function Name(): string {
      match this
      case SeqRead => "SEQ_READ"
      case SeqWrite => "SEQ_WRITE"
      case RandRead => "RAND_READ"
      case RandWrite => "RAND_WRITE"
    }

    predicate Writes() {
      this == SeqWrite || this == RandWrite
    }

    predicate Random() {
      this == RandRead || this == RandWrite
    }
  }

  /** The engine's decoding: one pair of string comparisons per flag. */
  function Decode(t: string): Flags {
    Flags(t == "SEQ_WRITE" || t == "RAND_WRITE", t == "RAND_WRITE" || t == "RAND_READ")
  }

  /** Each kind's name decodes to exactly that kind's direction and access pattern. */
  lemma DecodeName(k: Kind)
    ensures Decode(k.Name()) == Flags(k.Writes(), k.Random())
  {
    match k
    case SeqRead =>
      assert "SEQ_READ"[0] != "RAND_WRITE"[0] && "SEQ_READ"[4] != "SEQ_WRITE"[4];
    case SeqWrite =>
      assert "SEQ_WRITE"[0] != "RAND_WRITE"[0];
    case RandRead =>
      assert "RAND_READ"[0] != "SEQ_WRITE"[0] && "RAND_READ"[5] != "RAND_WRITE"[5];
    case RandWrite =>
      assert "RAND_WRITE"[0] != "SEQ_WRITE"[0];
  }

  /** The four names give four different flag pairs, so decoding loses nothing
      about which of the four tests was asked for. */
  lemma DecodeNamesDistinct(k1: Kind, k2: Kind)
    ensures Decode(k1.Name()) == Decode(k2.Name()) ==> k1 == k2
  {
    DecodeName(k1);
    DecodeName(k2);
  }

  /** A type string that is none of the four names runs as a sequential read. */
  lemma DecodeUnknown(t: string)
    requires forall k: Kind :: t != k.Name()
    ensures Decode(t) == Decode(SeqRead.Name())
  {
    DecodeName(SeqRead);
    assert t != SeqWrite.Name() && t != RandWrite.Name() && t != RandRead.Name();
  }

  /** Both directions for each flag: a string sets the write flag exactly when
      it names a writing kind, and the random flag exactly when it names a
      random kind. */
  lemma DecodeIff(t: string)
    ensures Decode(t).isWrite <==> exists k: Kind :: k.Writes() && t == k.Name()
    ensures Decode(t).isRand <==> exists k: Kind :: k.Random() && t == k.Name()
  {
    if Decode(t).isWrite {
      var k := if t == "SEQ_WRITE" then SeqWrite else RandWrite;
      assert k.Writes() && t == k.Name();
    }
    if Decode(t).isRand {
      var k := if t == "RAND_WRITE" then RandWrite else RandRead;
      assert k.Random() && t == k.Name();
    }
  }
}

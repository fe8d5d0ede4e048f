/** The 16-bit words in which `cc.h` keeps its metadata. `Unpack` reads a word as the
    record the rest of the model works with; each mask expression of the source is shown
    to be the corresponding change of the record, and 0 to be the only word that reads
    as `EMPTY`. */
module VerstableWords {
  import opened VerstableChains

  const HASH_FRAG_MASK: bv16 := 0xF000
  const IN_HOME_BUCKET_MASK: bv16 := 0x0800
  const DISPLACEMENT_MASK: bv16 := 0x07FF

  /** The three fields of a word, still as bits. */
  datatype Fields = Fields(frag: bv16, inHome: bool, disp: bv16)

  function Split(w: bv16): Fields
  {
    Fields(w >> 12, w & IN_HOME_BUCKET_MASK != 0, w & DISPLACEMENT_MASK)
  }

  function ToMeta(f: Fields): Meta
  {
    Meta(f.frag as nat, f.inHome, f.disp as nat)
  }

  function Unpack(w: bv16): Meta
  {
    ToMeta(Split(w))
  }

  lemma FromNat(a: bv16, b: bv16)
    requires a as nat == b as nat
    ensures a == b
  {
    assert (a as nat) as bv16 == a && (b as nat) as bv16 == b;
  }

  lemma Rejoin(w: bv16)
    ensures w == ((w >> 12) << 12) | (w & IN_HOME_BUCKET_MASK) | (w & DISPLACEMENT_MASK)
  {
  }

  lemma OneFlag(w: bv16)
    ensures w & IN_HOME_BUCKET_MASK == 0 || w & IN_HOME_BUCKET_MASK == IN_HOME_BUCKET_MASK
  {
  }

  lemma SplitInjective(v: bv16, w: bv16)
    requires Split(v) == Split(w)
    ensures v == w
  {
    Rejoin(v);
    Rejoin(w);
    OneFlag(v);
    OneFlag(w);
  }

  /** Different words are different records. */
  lemma UnpackInjective(v: bv16, w: bv16)
    ensures Unpack(v) == Unpack(w) <==> v == w
  {
    if Unpack(v) == Unpack(w) {
      FromNat(Split(v).frag, Split(w).frag);
      FromNat(Split(v).disp, Split(w).disp);
      SplitInjective(v, w);
    }
  }

  lemma SplitTakeDisplacement(a: bv16, b: bv16)
    ensures Split((a & !DISPLACEMENT_MASK) | (b & DISPLACEMENT_MASK)) == Split(a).(disp := Split(b).disp)
  {
  }

  lemma SplitTakeFragment(a: bv16, b: bv16)
    ensures Split((a & !HASH_FRAG_MASK) | (b & HASH_FRAG_MASK)) == Split(a).(frag := Split(b).frag)
  {
  }

  lemma SplitRelocated(a: bv16, b: bv16)
    ensures Split((a & HASH_FRAG_MASK) | (b & DISPLACEMENT_MASK)) == Fields(Split(a).frag, false, Split(b).disp)
  {
  }

  lemma SplitEndOfChain(a: bv16)
    ensures Split(a | DISPLACEMENT_MASK) == Split(a).(disp := DISPLACEMENT_MASK)
  {
  }

  lemma SplitHead(a: bv16)
    ensures Split((a & HASH_FRAG_MASK) | IN_HOME_BUCKET_MASK | DISPLACEMENT_MASK)
            == Fields(Split(a).frag, true, DISPLACEMENT_MASK)
  {
  }

  /** The source's mask expressions: relinking an entry, ... */
  lemma TakeDisplacement(a: bv16, b: bv16)
    ensures Unpack((a & !DISPLACEMENT_MASK) | (b & DISPLACEMENT_MASK)) == Unpack(a).(disp := Unpack(b).disp)
  {
    SplitTakeDisplacement(a, b);
  }

  /** ... storing a moved entry's fragment, ... */
  lemma TakeFragment(a: bv16, b: bv16)
    ensures Unpack((a & !HASH_FRAG_MASK) | (b & HASH_FRAG_MASK)) == Unpack(a).(frag := Unpack(b).frag)
  {
    SplitTakeFragment(a, b);
  }

  /** ... giving an entry linked outside its home the successor of its predecessor, ... */
  lemma Relocated(a: bv16, b: bv16)
    ensures Unpack((a & HASH_FRAG_MASK) | (b & DISPLACEMENT_MASK)) == Meta(Unpack(a).frag, false, Unpack(b).disp)
  {
    SplitRelocated(a, b);
  }

  /** ... ending a chain, ... */
  lemma EndOfChain(a: bv16)
    ensures Unpack(a | DISPLACEMENT_MASK) == Unpack(a).(disp := LIMIT)
  {
    SplitEndOfChain(a);
    UnpackZero();
  }

  /** ... and starting one. */
  lemma Head(a: bv16)
    ensures Unpack((a & HASH_FRAG_MASK) | IN_HOME_BUCKET_MASK | DISPLACEMENT_MASK) == Meta(Unpack(a).frag, true, LIMIT)
  {
    SplitHead(a);
    UnpackZero();
  }

  /** Only the zero word is empty. */
  lemma EmptyIsZero(a: bv16)
    ensures Unpack(a) == EMPTY <==> a == 0
  {
    UnpackInjective(a, 0);
    UnpackZero();
  }

  lemma UnpackZero()
    ensures Unpack(0) == EMPTY && DISPLACEMENT_MASK as nat == LIMIT
  {
  }
}

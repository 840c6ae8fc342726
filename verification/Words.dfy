// A word of memory as a 32-bit number, and stores of less than a word.
module Words {
  import opened Mmu

  type Extra = n: nat | n < 4

  // The low n bytes of a word replaced.
  function Blend(was: Word, now: Word, n: Extra): Word {
    var f, g := was.flags, now.flags;
    match n
    case 0 => was
    case 1 => Word(was.frame, Flags(g.present, g.rw, g.user, g.large, f.other / 16 * 16 + g.other % 16))
    case 2 => Word(was.frame / 16 * 16 + now.frame % 16, g)
    case 3 => Word(was.frame / 4096 * 4096 + now.frame % 4096, g)
  }

  lemma BlendTwice(was: Word, now: Word, n: Extra)
    ensures Blend(Blend(was, now, n), now, n) == Blend(was, now, n)
  {
    if n == 1 {
      Halves(was.flags.other / 16, now.flags.other % 16, 16);
    } else if n == 2 {
      Halves(was.frame / 16, now.frame % 16, 16);
    } else if n == 3 {
      Halves(was.frame / 4096, now.frame % 4096, 4096);
    }
  }

  lemma Halves(high: nat, low: nat, k: nat)
    requires (k == 16 || k == 256 || k == 4096) && low < k
    ensures (high * k + low) / k == high && (high * k + low) % k == low
  {
  }

  function Bit(b: bool, n: nat): nat {
    if b then n else 0
  }

  function LowByte(f: Flags): (n: nat)
    ensures n < 0x100
  {
    Bit(f.large, 128) + f.other % 16 * 8 + Bit(f.user, 4) + Bit(f.rw, 2) + Bit(f.present, 1)
  }

  function LowTwelve(f: Flags): (n: nat)
    ensures n < 0x1000
  {
    f.other / 16 * 256 + LowByte(f)
  }

  // The number a word is.
  function Value(w: Word): nat {
    w.frame * 4096 + LowTwelve(w.flags)
  }

  lemma SplitByte(w: Word)
    ensures Value(w) / 0x100 == w.frame * 16 + w.flags.other / 16 && Value(w) % 0x100 == LowByte(w.flags)
  {
    assert Value(w) == (w.frame * 16 + w.flags.other / 16) * 0x100 + LowByte(w.flags);
    Halves(w.frame * 16 + w.flags.other / 16, LowByte(w.flags), 0x100);
  }

  lemma SplitFrame(w: Word)
    ensures Value(w) / 0x1_0000 == w.frame / 16 && Value(w) % 0x1_0000 == w.frame % 16 * 4096 + LowTwelve(w.flags)
    ensures Value(w) / 0x100_0000 == w.frame / 4096
    ensures Value(w) % 0x100_0000 == w.frame % 4096 * 4096 + LowTwelve(w.flags)
  {
    assert w.frame == w.frame / 16 * 16 + w.frame % 16;
    assert w.frame == w.frame / 4096 * 4096 + w.frame % 4096;
  }

  lemma BlendByte(was: Word, now: Word)
    ensures Value(Blend(was, now, 1)) == Value(was) / 0x100 * 0x100 + Value(now) % 0x100
  {
    SplitByte(was);
    SplitByte(now);
    Halves(was.flags.other / 16, now.flags.other % 16, 16);
  }

  lemma BlendHalf(was: Word, now: Word)
    ensures Value(Blend(was, now, 2)) == Value(was) / 0x1_0000 * 0x1_0000 + Value(now) % 0x1_0000
    ensures Value(Blend(was, now, 3)) == Value(was) / 0x100_0000 * 0x100_0000 + Value(now) % 0x100_0000
  {
    SplitFrame(was);
    SplitFrame(now);
  }

  function Bytes(n: Extra): nat {
    match n
    case 0 => 1
    case 1 => 0x100
    case 2 => 0x1_0000
    case 3 => 0x100_0000
  }

  // Replacing the low n bytes is what it says on the numbers.
  lemma BlendIsBytes(was: Word, now: Word, n: Extra)
    ensures Value(Blend(was, now, n)) == Value(was) / Bytes(n) * Bytes(n) + Value(now) % Bytes(n)
  {
    if n == 1 {
      BlendByte(was, now);
    } else if n > 1 {
      BlendHalf(was, now);
    }
  }
}

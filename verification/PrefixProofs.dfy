/** Address comparison under a mask is comparison of the network prefix, for one IPv4 word and for the
    words of an IPv6 address. */
module PrefixProofs {
  import opened Words
  import opened Errors
  import opened LinkType
  import opened Irep
  import opened Decision
  import opened Filters
  import opened GateProofs
  import M = Meaning

  // ----- masks -----

  /** The netmask is `prefix` ones followed by zeros. */
  lemma NetmaskIs(prefix: u8)
    requires prefix <= 32
    ensures Netmask(prefix) == (Pow2(prefix) - 1) * Pow2(32 - prefix)
  {
    Pow2Values();
    if prefix != 0 {
      Pow2Add(prefix, 32 - prefix);
      ShiftOnes(Pow2(prefix), Pow2(32 - prefix));
    }
  }

  lemma ShiftOnes(high: nat, low: nat)
    requires high >= 1 && low >= 1 && high * low == 0x1_0000_0000
    ensures 0xffff_ffff * low % 0x1_0000_0000 == (high - 1) * low
  {
    assert (high - 1) * low == 0x1_0000_0000 - low;
    DivModUnique(0xffff_ffff * low, 0x1_0000_0000, low - 1, 0x1_0000_0000 - low);
  }

  lemma MulInjective(x: int, y: int, d: int)
    requires d > 0
    ensures x * d == y * d <==> x == y
  {
    MulDistinct(x, y, d);
  }

  /** Two words agree under a netmask exactly when their prefixes agree. */
  lemma MaskAgrees(w: u32, v: u32, prefix: u8)
    requires prefix <= 32
    ensures BitAnd(w, Netmask(prefix)) == BitAnd(v, Netmask(prefix)) <==>
            M.Quotient(w, Pow2(32 - prefix)) == M.Quotient(v, Pow2(32 - prefix))
  {
    var low := Pow2(32 - prefix);
    Pow2Values();
    NetmaskIs(prefix);
    AndHighMask(w, prefix, 32 - prefix, Pow2(prefix) - 1, low);
    AndHighMask(v, prefix, 32 - prefix, Pow2(prefix) - 1, low);
    MulInjective(w / low, v / low, low);
  }

  lemma AllOnes(w: u32)
    ensures BitAnd(w, 0xffff_ffff) == w
  {
    Pow2Values();
    AndLowMask(w, 32);
    DivModUnique(w, 0x1_0000_0000, 0, w);
  }

  lemma WordBound(packet: Bytes, offset: nat)
    ensures M.Field(packet, offset, 4).Some? ==> M.Field(packet, offset, 4).value < 0x1_0000_0000
  {
    if offset + 4 <= |packet| {
      BigEndian4(packet[offset..offset + 4]);
    }
  }

  /** A word loaded, masked where the mask is not all ones, and compared with an equally masked target,
      settles whether the prefixes agree. */
  lemma MaskedWordDecides(k: u32, addr: u32, prefix: u8, at: Span, packet: Bytes)
    requires prefix <= 32
    ensures Decides(Test([LdwAbs(k)] + Masking(Netmask(prefix)), Eq, BitAnd(addr, Netmask(prefix)), at), packet,
                    M.InNetwork4(packet, k, addr, prefix))
  {
    var f := M.Field(packet, k, 4);
    var v := M.InNetwork4(packet, k, addr, prefix);
    var mask := Netmask(prefix);
    WordBound(packet, k);
    if f.Some? {
      MaskAgrees(f.value, addr, prefix);
    }
    if mask == 0xffff_ffff {
      AllOnes(addr);
      if f.Some? {
        AllOnes(f.value);
      }
      EqDecides(LdwAbs(k), BitAnd(addr, mask), at, packet);
      assert [LdwAbs(k)] + [] == [LdwAbs(k)];
    } else {
      MaskedDecides(LdwAbs(k), mask, BitAnd(addr, mask), at, packet, v);
      assert [LdwAbs(k)] + [AndK(mask)] == [LdwAbs(k), AndK(mask)];
    }
  }

  lemma FullMask()
    ensures Netmask(32) == 0xffff_ffff
  {
    Pow2Values();
    NetmaskIs(32);
  }

  /** The IPv4 comparison, with and without a mask. */
  lemma AddrTestDecides(link: LinkType, step: u8, addr: u32, prefix: Option<u8>, at: Span, packet: Bytes)
    requires prefix.Some? ==> prefix.value <= 32
    ensures var mask := if prefix.Some? then Some(Netmask(prefix.value)) else None;
            var target := if mask.Some? then BitAnd(addr, mask.value) else addr;
            Decides(AddrTest(link, step, mask, target, at), packet,
                    M.InNetwork4(packet, L3Info(link).ipBase + step, addr, if prefix.Some? then prefix.value else 32))
  {
    var k := L3Info(link).ipBase + step;
    match prefix
    case Some(p) =>
      MaskedWordDecides(k, addr, p, at, packet);
    case None =>
      MaskedWordDecides(k, addr, 32, at, packet);
      FullMask();
      AllOnes(addr);
      assert [LdwAbs(k)] + [] == [LdwAbs(k)];
  }

  // ----- splitting a long address into its first word and the others -----

  lemma ShiftSplit(h: nat, l: nat, q: nat, d: nat)
    requires l < Pow2(q + d)
    ensures (h * Pow2(q + d) + l) / Pow2(d) == h * Pow2(q) + l / Pow2(d)
    ensures 0 <= l / Pow2(d) < Pow2(q)
  {
    Pow2Add(q, d);
    ShiftArith(h, l, Pow2(q), Pow2(d));
  }

  lemma ShiftArith(h: nat, l: nat, m: nat, n: nat)
    requires m > 0 && n > 0 && l < m * n
    ensures (h * (m * n) + l) / n == h * m + l / n
    ensures 0 <= l / n < m
  {
    var a, b := l / n, l % n;
    SplitArith(h, m, n, a, b);
    DivModUnique(h * (m * n) + l, n, h * m + a, b);
    MulDistinct(m, a, n);
  }

  lemma SplitArith(h: nat, m: nat, n: nat, a: nat, b: nat)
    ensures h * (m * n) + (a * n + b) == (h * m + a) * n + b
  {
  }

  lemma PairsEqual(x: nat, y: nat, x': nat, y': nat, m: nat)
    requires y < m && y' < m
    ensures x * m + y == x' * m + y' <==> x == x' && y == y'
  {
    MulDistinct(x, x', m);
  }

  /** Dropping the low `d` bits of two numbers and comparing them is comparing their first words and
      what the others keep. */
  lemma CompareSplit(h1: nat, l1: nat, d1: nat, h2: nat, l2: nat, d2: nat, q: nat)
    requires l1 < Pow2(q + d1) && l2 < Pow2(q + d2)
    ensures (h1 * Pow2(q + d1) + l1) / Pow2(d1) == (h2 * Pow2(q + d2) + l2) / Pow2(d2) <==>
            h1 == h2 && l1 / Pow2(d1) == l2 / Pow2(d2)
  {
    ShiftSplit(h1, l1, q, d1);
    ShiftSplit(h2, l2, q, d2);
    PairsEqual(h1, l1 / Pow2(d1), h2, l2 / Pow2(d2), Pow2(q));
  }

  /** The first word of `k` words in the packet, and the other words. */
  lemma FirstWord(packet: Bytes, o: nat, k: nat)
    requires k >= 1 && o + 4 * k <= |packet|
    ensures M.Field(packet, o, 4).Some?
    ensures M.Leading(packet, o, k) ==
            M.Field(packet, o, 4).value * Pow2(32 * (k - 1)) + M.Leading(packet, o + 4, k - 1)
    ensures M.Leading(packet, o + 4, k - 1) < Pow2(32 * (k - 1))
  {
    var s, t := packet[o..o + 4], packet[o + 4..][..4 * (k - 1)];
    assert packet[o..][..4 * k] == s + t;
    BigEndianConcat(s, t);
    BigEndianBound(t);
  }

  lemma WordsShift(packet: Bytes, o: nat, prefix: nat)
    requires prefix > 32
    ensures M.WordsReached(prefix) == 1 + M.WordsReached(prefix - 32)
    ensures M.WordsPresent(packet, o) > 0 ==> M.WordsPresent(packet, o) == 1 + M.WordsPresent(packet, o + 4)
    ensures M.WordsPresent(packet, o) > 0 <==> M.Field(packet, o, 4).Some?
  {
  }

  /** One word of the comparison, then the others. */
  lemma InNetwork6Unrolls(packet: Bytes, o: nat, words: nat, high: nat, low: nat, prefix: nat)
    requires words >= 1 && 32 < prefix <= 32 * words && low < Pow2(32 * (words - 1))
    ensures M.InNetwork6(packet, o, words, high * Pow2(32 * (words - 1)) + low, prefix) ==
            M.FieldIs(M.Field(packet, o, 4), high).AndThen(M.InNetwork6(packet, o + 4, words - 1, low, prefix - 32))
  {
    WordsShift(packet, o, prefix);
    var reached, present := M.WordsReached(prefix), M.WordsPresent(packet, o);
    if present >= 1 {
      if reached <= present {
        CompareReached(packet, o, words, high, low, prefix, reached);
      } else {
        ComparePresent(packet, o, words, high, low, present);
      }
    }
  }

  lemma CompareReached(packet: Bytes, o: nat, words: nat, high: nat, low: nat, prefix: nat, k: nat)
    requires words >= 1 && 32 < prefix <= 32 * words && low < Pow2(32 * (words - 1))
    requires k == M.WordsReached(prefix) && o + 4 * k <= |packet|
    ensures M.Field(packet, o, 4).Some?
    ensures M.Leading(packet, o, k) / Pow2(32 * k - prefix) ==
            (high * Pow2(32 * (words - 1)) + low) / Pow2(32 * words - prefix) <==>
            M.Field(packet, o, 4).value == high &&
            M.Leading(packet, o + 4, k - 1) / Pow2(32 * (k - 1) - (prefix - 32)) ==
            low / Pow2(32 * (words - 1) - (prefix - 32))
  {
    FirstWord(packet, o, k);
    var d1, d2, q := 32 * k - prefix, 32 * words - prefix, prefix - 32;
    assert q + d1 == 32 * (k - 1) && q + d2 == 32 * (words - 1);
    CompareSplit(M.Field(packet, o, 4).value, M.Leading(packet, o + 4, k - 1), d1, high, low, d2, q);
  }

  lemma ComparePresent(packet: Bytes, o: nat, words: nat, high: nat, low: nat, k: nat)
    requires 1 <= k < words && low < Pow2(32 * (words - 1))
    requires o + 4 * k <= |packet|
    ensures M.Field(packet, o, 4).Some?
    ensures M.Leading(packet, o, k) == (high * Pow2(32 * (words - 1)) + low) / Pow2(32 * words - 32 * k) <==>
            M.Field(packet, o, 4).value == high &&
            M.Leading(packet, o + 4, k - 1) == low / Pow2(32 * (words - 1) - 32 * (k - 1))
    ensures k == 1 ==> M.Leading(packet, o + 4, k - 1) == low / Pow2(32 * (words - 1) - 32 * (k - 1))
  {
    FirstWord(packet, o, k);
    var d2, q := 32 * words - 32 * k, 32 * (k - 1);
    assert q + 0 == 32 * (k - 1) && q + d2 == 32 * (words - 1);
    var v, t := M.Field(packet, o, 4).value, M.Leading(packet, o + 4, k - 1);
    CompareSplit(v, t, 0, high, low, d2, q);
    ByOne(v * Pow2(q + 0) + t);
    ByOne(t);
    if k == 1 {
      assert packet[o + 4..][..0] == [];
      DivModUnique(low, Pow2(d2), 0, low);
    }
  }

  lemma ByOne(v: nat)
    ensures Pow2(0) == 1 && v / Pow2(0) == v
  {
  }

  /** A prefix that ends in the first word looks at that word only. */
  lemma InNetwork6First(packet: Bytes, o: nat, words: nat, high: nat, low: nat, prefix: nat)
    requires words >= 1 && 0 < prefix <= 32 && low < Pow2(32 * (words - 1))
    ensures M.InNetwork6(packet, o, words, high * Pow2(32 * (words - 1)) + low, prefix) ==
            M.InNetwork4(packet, o, high, prefix)
  {
    assert M.WordsReached(prefix) == 1;
    if o + 4 <= |packet| {
      assert M.WordsPresent(packet, o) >= 1;
      assert packet[o..][..4] == packet[o..o + 4];
      DropLow(high, low, words - 1, 32 - prefix);
    }
  }

  lemma DropLow(high: nat, low: nat, words: nat, d: nat)
    requires low < Pow2(32 * words)
    ensures (high * Pow2(32 * words) + low) / Pow2(32 * words + d) == high / Pow2(d)
  {
    var m := Pow2(32 * words);
    DivModUnique(high * m + low, m, high, low);
    DivDiv(high * m + low, m, Pow2(d));
    Pow2Add(32 * words, d);
  }

  // ----- the word loop -----

  lemma SplitMod(a: nat, m: nat, n: nat)
    requires m > 0 && n > 0
    ensures m * n > 0 && a % (m * n) == a / m % n * m + a % m
  {
    var q, r := a / m, a % m;
    var u, w := q / n, q % n;
    assert a == (u * n + w) * m + r;
    MulRegroup(u, n, w, m);
    MulDistinct(w, n, m);
    MulDistinct(0, m, n);
    DivModUnique(a, m * n, u, w * m + r);
  }

  /** What is left of the address from word `i` on, as its word `i` and what is left after it. */
  lemma AddrSplits(addr: u128, i: nat)
    requires i < 4
    ensures addr % Pow2(32 * (4 - i)) == AddrWord(addr, i) * Pow2(32 * (3 - i)) + addr % Pow2(32 * (3 - i))
    ensures 0 <= addr % Pow2(32 * (3 - i)) < Pow2(32 * (3 - i))
  {
    assert 32 * (4 - i) == 32 * (3 - i) + 32 && 96 - 32 * i == 32 * (3 - i);
    Pow2Add(32 * (3 - i), 32);
    Pow2Values();
    SplitMod(addr, Pow2(32 * (3 - i)), Pow2(32));
  }

  lemma WordTestDecides(link: LinkType, step: u8, addr: u128, prefix: nat, i: nat, at: Span, packet: Bytes)
    requires 32 * i < prefix <= 128
    ensures Decides(Addr6WordTest(link, step, addr, prefix, i, at), packet,
                    M.InNetwork4(packet, L3Info(link).ipBase + step + 4 * i, AddrWord(addr, i),
                                 if prefix - 32 * i < 32 then prefix - 32 * i else 32))
  {
    var width := if prefix - 32 * i < 32 then prefix - 32 * i else 32;
    assert WordMask(prefix, i) == Netmask(width);
    MaskedWordDecides(L3Info(link).ipBase + step + 4 * i, AddrWord(addr, i), width, at, packet);
  }

  lemma FullWord(packet: Bytes, o: nat, w: u32)
    ensures M.InNetwork4(packet, o, w, 32) == M.FieldIs(M.Field(packet, o, 4), w)
  {
    ByOne(w);
    var f := M.Field(packet, o, 4);
    if f.Some? {
      ByOne(f.value);
    }
  }

  /** The part of an address from word `i` on, compared with the packet at `o`. */
  function RestMeaning(packet: Bytes, o: nat, addr: u128, prefix: nat, i: nat): M.Verdict
    requires 32 * i < prefix <= 128
  {
    M.InNetwork6(packet, o, 4 - i, addr % Pow2(32 * (4 - i)), prefix - 32 * i)
  }

  lemma LastWordMeaning(packet: Bytes, o: nat, addr: u128, prefix: nat, i: nat)
    requires 32 * i < prefix <= 128 && prefix - 32 * i <= 32
    ensures RestMeaning(packet, o, addr, prefix, i) == M.InNetwork4(packet, o, AddrWord(addr, i), prefix - 32 * i)
  {
    AddrSplits(addr, i);
    InNetwork6First(packet, o, 4 - i, AddrWord(addr, i), addr % Pow2(32 * (3 - i)), prefix - 32 * i);
  }

  lemma NextWordMeaning(packet: Bytes, o: nat, addr: u128, prefix: nat, i: nat)
    requires 32 * i < prefix <= 128 && prefix - 32 * i > 32
    ensures RestMeaning(packet, o, addr, prefix, i) ==
            M.InNetwork4(packet, o, AddrWord(addr, i), 32).AndThen(RestMeaning(packet, o + 4, addr, prefix, i + 1))
  {
    var word, low, rest := AddrWord(addr, i), addr % Pow2(32 * (3 - i)), prefix - 32 * i;
    AddrSplits(addr, i);
    InNetwork6Unrolls(packet, o, 4 - i, word, low, rest);
    FullWord(packet, o, word);
    assert RestMeaning(packet, o + 4, addr, prefix, i + 1) == M.InNetwork6(packet, o + 4, 3 - i, low, rest - 32);
  }

  /** The words from `i` on, one at a time. */
  function WordByWord(packet: Bytes, o: nat, addr: u128, prefix: nat, i: nat): M.Verdict
    requires 32 * i < prefix <= 128
    decreases prefix - 32 * i
  {
    if i == WordsOf(prefix) - 1 then M.InNetwork4(packet, o, AddrWord(addr, i), prefix - 32 * i)
    else M.InNetwork4(packet, o, AddrWord(addr, i), 32).AndThen(WordByWord(packet, o + 4, addr, prefix, i + 1))
  }

  lemma {:induction false} Addr6FromDecides(link: LinkType, step: u8, addr: u128, prefix: nat, i: nat, at: Span,
        packet: Bytes)
    requires 32 * i < prefix <= 128
    ensures Decides(Addr6From(link, step, addr, prefix, i, at), packet,
                    WordByWord(packet, L3Info(link).ipBase + step + 4 * i, addr, prefix, i))
    decreases prefix - 32 * i
  {
    if i == WordsOf(prefix) - 1 {
      LastWordDecides(link, step, addr, prefix, i, at, packet);
    } else {
      Addr6FromDecides(link, step, addr, prefix, i + 1, at, packet);
      var o := L3Info(link).ipBase + step + 4 * i;
      var rest := WordByWord(packet, o + 4, addr, prefix, i + 1);
      assert L3Info(link).ipBase + step + 4 * (i + 1) == o + 4;
      NextWordDecides(link, step, addr, prefix, i, at, packet, rest);
      assert WordByWord(packet, o, addr, prefix, i) == M.InNetwork4(packet, o, AddrWord(addr, i), 32).AndThen(rest);
    }
  }

  lemma LastWordDecides(link: LinkType, step: u8, addr: u128, prefix: nat, i: nat, at: Span, packet: Bytes)
    requires 32 * i < prefix <= 128 && i == WordsOf(prefix) - 1
    ensures Decides(Addr6From(link, step, addr, prefix, i, at), packet,
                    M.InNetwork4(packet, L3Info(link).ipBase + step + 4 * i, AddrWord(addr, i), prefix - 32 * i))
  {
    WordTestDecides(link, step, addr, prefix, i, at, packet);
  }

  lemma NextWordDecides(link: LinkType, step: u8, addr: u128, prefix: nat, i: nat, at: Span, packet: Bytes,
        rest: M.Verdict)
    requires 32 * i < prefix <= 128 && i != WordsOf(prefix) - 1
    requires Decides(Addr6From(link, step, addr, prefix, i + 1, at), packet, rest)
    ensures Decides(Addr6From(link, step, addr, prefix, i, at), packet,
                    M.InNetwork4(packet, L3Info(link).ipBase + step + 4 * i, AddrWord(addr, i), 32).AndThen(rest))
  {
    WordTestDecides(link, step, addr, prefix, i, at, packet);
    BothDecides(Addr6WordTest(link, step, addr, prefix, i, at), Addr6From(link, step, addr, prefix, i + 1, at), packet,
                M.InNetwork4(packet, L3Info(link).ipBase + step + 4 * i, AddrWord(addr, i), 32), rest);
  }

  lemma {:induction false} WordByWordMeaning(packet: Bytes, o: nat, addr: u128, prefix: nat, i: nat)
    requires 32 * i < prefix <= 128
    ensures WordByWord(packet, o, addr, prefix, i) == RestMeaning(packet, o, addr, prefix, i)
    decreases prefix - 32 * i
  {
    if i == WordsOf(prefix) - 1 {
      LastWordMeaning(packet, o, addr, prefix, i);
    } else {
      WordByWordMeaning(packet, o + 4, addr, prefix, i + 1);
      NextWordMeaning(packet, o, addr, prefix, i);
    }
  }

  lemma WholeAddress(addr: u128)
    ensures addr % Pow2(128) == addr && addr / Pow2(128) == 0
  {
    Pow2Values();
    DivModUnique(addr, Pow2(128), 0, addr);
  }

  /** The IPv6 comparison, for every address and every prefix from 0 to 128: it settles whether the top
      `prefix` bits agree, and a prefix of zero holds without looking at the packet. */
  lemma Addr6TestDecides(link: LinkType, step: u8, addr: u128, prefix: nat, at: Span, packet: Bytes)
    requires prefix <= 128
    ensures Decides(Addr6Test(link, step, addr, prefix, at), packet,
                    M.InNetwork6(packet, L3Info(link).ipBase + step, 4, addr, prefix))
  {
    if prefix != 0 {
      Addr6FromDecides(link, step, addr, prefix, 0, at, packet);
      WholeWordByWord(packet, L3Info(link).ipBase + step, addr, prefix);
    } else {
      AlwaysDecides(at, packet);
    }
  }

  lemma AlwaysDecides(at: Span, packet: Bytes)
    ensures Decides(Always(at), packet, M.Yes)
  {
  }

  lemma WholeWordByWord(packet: Bytes, o: nat, addr: u128, prefix: nat)
    requires 0 < prefix <= 128
    ensures WordByWord(packet, o, addr, prefix, 0) == M.InNetwork6(packet, o, 4, addr, prefix)
  {
    WordByWordMeaning(packet, o, addr, prefix, 0);
    WholeAddress(addr);
  }

  /** Dropping the words a prefix does not reach, and then the bits, is dropping all of them at once. */
  lemma ReachedWords(packet: Bytes, o: nat, prefix: nat)
    requires 0 < prefix <= 128 && o + 16 <= |packet|
    ensures var k := M.WordsReached(prefix);
            M.Leading(packet, o, k) / Pow2(32 * k - prefix) == BigEndian(packet[o..o + 16]) / Pow2(128 - prefix)
  {
    var k := M.WordsReached(prefix);
    var s, t := packet[o..][..4 * k], packet[o + 4 * k..o + 16];
    assert packet[o..o + 16] == s + t;
    DropWords(s, t, 4 - k, 32 * k - prefix);
    assert 32 * (4 - k) + (32 * k - prefix) == 128 - prefix;
  }

  lemma DropWords(s: Bytes, t: Bytes, words: nat, d: nat)
    requires |t| == 4 * words
    ensures BigEndian(s + t) / Pow2(32 * words + d) == BigEndian(s) / Pow2(d)
  {
    BigEndianConcat(s, t);
    BigEndianBound(t);
    assert 8 * |t| == 32 * words;
    DropLow(BigEndian(s), BigEndian(t), words, d);
  }

  /** On a packet that holds the whole address, agreeing in the network is equality of the top `prefix`
      bits of two 128-bit numbers. */
  lemma WholeAddressPrefix(packet: Bytes, o: nat, addr: u128, prefix: nat)
    requires prefix <= 128 && o + 16 <= |packet|
    ensures M.InNetwork6(packet, o, 4, addr, prefix) ==
            M.Truth(M.Quotient(M.Field(packet, o, 16).value, Pow2(128 - prefix)) ==
                    M.Quotient(addr, Pow2(128 - prefix)))
  {
    if prefix == 0 {
      BigEndianBound(packet[o..o + 16]);
      WholeAddress(addr);
      Pow2Values();
      WholeAddress(BigEndian(packet[o..o + 16]));
    } else {
      ReachedWords(packet, o, prefix);
      assert M.WordsReached(prefix) <= 4 <= M.WordsPresent(packet, o);
    }
  }
}

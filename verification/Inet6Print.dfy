module Inet6Print {
  // inet_ntop6 of inet.c: which text it chooses (sections 4.2.2 and 4.2.3 of RFC 5952), and the round trip.

  import opened Basics
  import opened Inet4
  import opened Inet6Text

  function HexChar(d: nat): char
    requires d < 16
  {
    if d < 10 then '0' + d as char else 'a' + (d - 10) as char
  }

  // What "%x" prints.
  function Hex(n: nat): string {
    if n < 16 then [HexChar(n)] else Hex(n / 16) + [HexChar(n % 16)]
  }

  lemma {:induction false} HexReads(n: nat)
    ensures AllHex(Hex(n)) && HexVal(Hex(n)) == n && |Hex(n)| >= 1
  {
    if n >= 16 {
      HexReads(n / 16);
      assert Hex(n)[..|Hex(n)| - 1] == Hex(n / 16);
    } else {
      assert Hex(n)[..0] == "";
    }
  }

  lemma {:induction false} HexCharListed(d: nat)
    requires d < 16
    ensures HexChar(d) == XDIGITS_L[d]
  {
  }

  // No zero comes first, and only small digits.
  lemma {:induction false} HexShort(n: nat)
    ensures |Hex(n)| >= 1 && (Hex(n)[0] == '0' ==> n == 0)
    ensures forall i :: 0 <= i < |Hex(n)| ==> Hex(n)[i] in XDIGITS_L
  {
    HexCharListed(n % 16);
    if n >= 16 {
      HexShort(n / 16);
    }
  }

  lemma {:induction false} HexLength(n: nat, k: nat)
    requires 1 <= k <= 4 && n < (if k == 1 then 16 else if k == 2 then 256 else if k == 3 then 4096 else 65536)
    ensures |Hex(n)| <= k
  {
    if n >= 16 {
      HexLength(n / 16, k - 1);
    }
  }

  lemma {:induction false} HexGroup(n: nat)
    requires n < 65536
    ensures IsGroup(Hex(n)) && HexVal(Hex(n)) == n
  {
    HexReads(n);
    HexLength(n, 4);
  }

  type word = x: int | 0 <= x < 65536

  function WordsOf(b: seq<byte>): seq<word>
    requires |b| == 16
  {
    seq(8, i requires 0 <= i < 8 => b[2 * i] as int * 256 + b[2 * i + 1] as int)
  }

  predicate ZeroRun(w: seq<word>, base: nat, len: nat) {
    base + len <= |w| && forall i :: base <= i < base + len ==> w[i] == 0
  }

  // [base, base + len) is the leftmost of the longest zero runs of w, if any has length 2; otherwise base is -1.
  ghost predicate IsBest(w: seq<word>, base: int, len: nat) {
    if base == -1 then
      forall b: nat, l: nat :: ZeroRun(w, b, l) ==> l < 2
    else
      && base >= 0 && len >= 2 && ZeroRun(w, base, len)
      && forall b: nat, l: nat :: ZeroRun(w, b, l) ==> l < len || (l == len && base <= b)
  }

  // The same before runs of length 1 are dropped, for the runs that end by upto.
  ghost predicate BestUpTo(w: seq<word>, upto: nat, base: int, len: nat) {
    && (if base == -1 then len == 0 else base >= 0 && len >= 1 && base + len <= upto && ZeroRun(w, base, len))
    && forall b: nat, l: nat :: ZeroRun(w, b, l) && l >= 1 && b + l <= upto ==>
      base != -1 && (l < len || (l == len && base <= b))
  }

  // The run being counted: [base, i), with something else before it.
  ghost predicate Current(w: seq<word>, i: nat, base: int, len: nat) {
    base == -1 || (0 <= base < i && len == i - base && ZeroRun(w, base, len) && (base > 0 ==> w[base - 1] != 0))
  }

  // A finished run is compared with the best so far.
  lemma {:induction false} RunEnds(w: seq<word>, i: nat, base: int, len: nat, best: int, bestLen: nat)
    requires i <= |w| && base >= 0 && Current(w, i, base, len) && BestUpTo(w, base, best, bestLen)
    ensures if best == -1 || len > bestLen then BestUpTo(w, i, base, len) else BestUpTo(w, i, best, bestLen)
  {
    forall b: nat, l: nat | ZeroRun(w, b, l) && l >= 1 && b + l <= i
      ensures b + l <= base || (b >= base && l <= len && (l == len ==> b == base))
    {
    }
  }

  lemma {:induction false} NoRunEnds(w: seq<word>, i: nat, best: int, bestLen: nat)
    requires i < |w| && w[i] != 0 && BestUpTo(w, i, best, bestLen)
    ensures BestUpTo(w, i + 1, best, bestLen)
  {
    forall b: nat, l: nat | ZeroRun(w, b, l) && l >= 1 && b + l <= i + 1
      ensures b + l <= i
    {
      assert w[b + l - 1] == 0;
    }
  }

  method BestRun(words: array<word>) returns (base: int, len: nat)
    requires words.Length == 8
    ensures IsBest(words[..], base, len)
  {
    ghost var w := words[..];
    var best, bestLen, cur, curLen, i := -1, 0, -1, 0, 0;
    while i < 8
      invariant 0 <= i <= 8 && Current(w, i, cur, curLen) && (cur == -1 && i > 0 ==> w[i - 1] != 0)
      invariant BestUpTo(w, if cur == -1 then i else cur, best, bestLen)
    {
      if words[i] == 0 {
        if cur == -1 {
          cur, curLen := i, 1;
        } else {
          curLen := curLen + 1;
        }
      } else {
        if cur != -1 {
          RunEnds(w, i, cur, curLen, best, bestLen);
          if best == -1 || curLen > bestLen {
            best, bestLen := cur, curLen;
          }
          cur := -1;
        }
        NoRunEnds(w, i, best, bestLen);
      }
      i := i + 1;
    }
    if cur != -1 {
      RunEnds(w, 8, cur, curLen, best, bestLen);
      if best == -1 || curLen > bestLen {
        best, bestLen := cur, curLen;
      }
    }
    if best != -1 && bestLen < 2 {
      best := -1;
    }
    base, len := best, bestLen;
  }

  function Hexes(ws: seq<word>): seq<string> {
    if ws == [] then [] else [Hex(ws[0])] + Hexes(ws[1..])
  }

  // The network-order bytes of some words.
  function Flat(ws: seq<word>): (b: seq<byte>)
    ensures |b| == 2 * |ws|
  {
    if ws == [] then [] else Word(ws[0]) + Flat(ws[1..])
  }

  // The test for an embedded IPv4 address.  Its clause for a run of length 7 cannot apply: then word 6 lies in the
  // run, and the test is not reached.
  predicate Embedded(w: seq<word>, base: int, len: nat)
    requires |w| == 8
  {
    base == 0 && (len == 6 || (len == 5 && w[5] == 0xffff))
  }

  // The text that is chosen for the words w when the run [base, base + len) is compressed.
  function FormOf(w: seq<word>, base: int, len: nat): Form
    requires |w| == 8 && -1 <= base && (base >= 0 ==> base + len <= 8)
  {
    if base == -1 then Form([], false, Hexes(w), None)
    else if Embedded(w, base, len) then Form([], true, Hexes(w[len..6]), Some(Word(w[6]) + Word(w[7])))
    else Form(Hexes(w[..base]), true, Hexes(w[base + len..]), None)
  }

  lemma {:induction false} HexesGroups(ws: seq<word>)
    ensures |Hexes(ws)| == |ws| && Groups(Hexes(ws)) && Bytes(Hexes(ws)) == Flat(ws)
  {
    if ws != [] {
      HexGroup(ws[0]);
      HexesGroups(ws[1..]);
      assert Hexes(ws)[1..] == Hexes(ws[1..]);
    }
  }

  lemma {:induction false} FlatSplit(ws: seq<word>, k: nat)
    requires k <= |ws|
    ensures Flat(ws) == Flat(ws[..k]) + Flat(ws[k..])
  {
    if k > 0 {
      FlatSplit(ws[1..], k - 1);
      assert ws[..k][1..] == ws[1..][..k - 1] && ws[1..][k - 1..] == ws[k..];
      assert Flat(ws[..k]) == Word(ws[0]) + Flat(ws[1..][..k - 1]);
    } else {
      assert ws[..0] == [] && ws[0..] == ws;
    }
  }

  lemma {:induction false} FlatZeros(ws: seq<word>)
    requires forall i :: 0 <= i < |ws| ==> ws[i] == 0
    ensures Flat(ws) == Zeros(2 * |ws|)
  {
    if ws != [] {
      FlatZeros(ws[1..]);
      assert Word(0) == [0, 0];
    }
  }

  lemma {:induction false} FlatAt(ws: seq<word>, j: nat)
    requires j < |ws|
    ensures Flat(ws)[2 * j] == ws[j] / 256 % 256 && Flat(ws)[2 * j + 1] == ws[j] % 256
  {
    if j > 0 {
      FlatAt(ws[1..], j - 1);
      assert Flat(ws)[2 * j] == Flat(ws[1..])[2 * (j - 1)] && Flat(ws)[2 * j + 1] == Flat(ws[1..])[2 * (j - 1) + 1];
    }
  }

  lemma {:induction false} FlatWords(b: seq<byte>)
    requires |b| == 16
    ensures Flat(WordsOf(b)) == b
  {
    var w := WordsOf(b);
    forall i | 0 <= i < 16
      ensures Flat(w)[i] == b[i]
    {
      WordAt(b, i / 2);
      assert i == 2 * (i / 2) || i == 2 * (i / 2) + 1;
    }
  }

  lemma {:induction false} WordBytes(hi: byte, lo: byte)
    ensures (hi * 256 + lo) / 256 % 256 == hi && (hi * 256 + lo) % 256 == lo
  {
  }

  lemma {:induction false} WordAt(b: seq<byte>, j: nat)
    requires |b| == 16 && j < 8
    ensures Flat(WordsOf(b))[2 * j] == b[2 * j] && Flat(WordsOf(b))[2 * j + 1] == b[2 * j + 1]
  {
    FlatAt(WordsOf(b), j);
    WordBytes(b[2 * j], b[2 * j + 1]);
  }

  // The chosen text means the address it was made from.
  lemma {:induction false} FormOfMeans(b: seq<byte>, base: int, len: nat)
    requires |b| == 16 && -1 <= base && (base >= 0 ==> len >= 1 && ZeroRun(WordsOf(b), base, len))
    ensures var f := FormOf(WordsOf(b), base, len); IsAddress(f) && Value(f) == b
  {
    var w := WordsOf(b);
    FlatWords(b);
    if base == -1 {
      PlainMeans(w);
    } else {
      FlatRun(w, base, len);
      if Embedded(w, base, len) {
        EmbeddedMeans(w, len);
      } else {
        GapMeans(w, base, len);
      }
    }
  }

  lemma {:induction false} PlainMeans(w: seq<word>)
    requires |w| == 8
    ensures var f := Form([], false, Hexes(w), None); IsAddress(f) && Value(f) == Flat(w)
  {
    HexesGroups(w);
  }

  lemma {:induction false} GapMeans(w: seq<word>, base: nat, len: nat)
    requires |w| == 8 && base + len <= 8 && len >= 1
    ensures var f := Form(Hexes(w[..base]), true, Hexes(w[base + len..]), None);
            IsAddress(f) && Value(f) == Flat(w[..base]) + Zeros(2 * len) + Flat(w[base + len..])
  {
    HexesGroups(w[..base]);
    HexesGroups(w[base + len..]);
  }

  lemma {:induction false} FlatRun(w: seq<word>, base: nat, len: nat)
    requires ZeroRun(w, base, len)
    ensures Flat(w) == Flat(w[..base]) + Zeros(2 * len) + Flat(w[base + len..])
  {
    var u := w[base..];
    FlatSplit(w, base);
    FlatSplit(u, len);
    FlatZeros(u[..len]);
    assert u[len..] == w[base + len..];
    assert Flat(w[..base]) + (Zeros(2 * len) + Flat(u[len..])) == Flat(w[..base]) + Zeros(2 * len) + Flat(u[len..]);
  }

  lemma {:induction false} EmbeddedMeans(w: seq<word>, len: nat)
    requires |w| == 8 && ZeroRun(w, 0, len) && Embedded(w, 0, len)
    ensures var f := FormOf(w, 0, len);
            IsAddress(f) && Value(f) == Flat(w[..0]) + Zeros(2 * len) + Flat(w[len..])
  {
    HexesGroups(w[len..6]);
    FlatQuad(w, len);
    assert w[..0] == [];
  }

  lemma {:induction false} FlatQuad(w: seq<word>, len: nat)
    requires |w| == 8 && len <= 6
    ensures Flat(w[len..]) == Flat(w[len..6]) + (Word(w[6]) + Word(w[7]))
  {
    var u, q := w[len..], [w[6], w[7]];
    FlatSplit(u, 6 - len);
    assert u[..6 - len] == w[len..6] && u[6 - len..] == q;
    assert q[1..] == [w[7]] && Flat([w[7]]) == Word(w[7]);
    assert Flat(q) == Word(w[6]) + Word(w[7]);
  }

  // Printing and reading back gives the same address, for all of them.
  lemma {:induction false} RoundTrip6(b: seq<byte>, base: int, len: nat)
    requires |b| == 16 && IsBest(WordsOf(b), base, len)
    ensures -1 <= base && (base >= 0 ==> base + len <= 8)
    ensures var f := FormOf(WordsOf(b), base, len); IsForm(f) && Parse6(Text(f)) == Some(b)
  {
    FormOfMeans(b, base, len);
    FormParsed(FormOf(WordsOf(b), base, len));
  }
}

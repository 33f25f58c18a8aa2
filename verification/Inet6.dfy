module Inet6 {
  // inet_ntop6, inet_pton6 and the zone cut of uv_inet_pton.

  import opened Basics
  import opened Inet4
  import opened Inet6Text
  import opened Inet6Print

  // The hand-made overlapping memmove: the bytes from c on go to the end, zeros fill the gap.
  method Shift(tmp: array<byte>, c: nat, tp: nat)
    requires c <= tp < tmp.Length == 16 && forall k :: tp <= k < 16 ==> tmp[k] == 0
    modifies tmp
    ensures tmp[..] == old(tmp[..c]) + Zeros(16 - tp) + old(tmp[c..tp])
  {
    var endp, n := 16, tp - c;
    var i := 1;
    while i <= n
      invariant 1 <= i <= n + 1
      invariant forall k :: 0 <= k < 16 ==>
        tmp[k] == if k < tp - (i - 1) then old(tmp[k]) else if k < 16 - (i - 1) then 0 else old(tmp[k - (16 - tp)])
    {
      tmp[endp - i] := tmp[c + n - i];
      tmp[c + n - i] := 0;
      i := i + 1;
    }
  }

  // The main loop of inet_pton6 and the token left at its end.
  method ScanText(src: string, from: nat, tmp: array<byte>) returns (ok: bool, tp: nat, colonp: int)
    requires from <= |src| && tmp.Length == 16 && forall k :: 0 <= k < 16 ==> tmp[k] == 0
    modifies tmp
    ensures ok ==> tp <= 16 && -1 <= colonp <= tp && forall k :: tp <= k < 16 ==> tmp[k] == 0
    ensures Scan(src[from..], [], None, "") == if ok then Some(Scanned(tmp[..tp], ColonOf(colonp))) else None
  {
    ghost var all := Scan(src[from..], [], None, "");
    var endp, p := 16, from;
    var curtok, seen, val := p, 0, 0;
    tp, colonp := 0, -1;
    assert tmp[..0] == [] && src[p..p] == "";
    while p < |src|
      invariant from <= curtok <= p <= |src| && 0 <= tp <= 16 && -1 <= colonp <= tp
      invariant forall k :: tp <= k < 16 ==> tmp[k] == 0
      invariant seen == p - curtok <= 4 && AllHex(src[curtok..p]) && val == HexVal(src[curtok..p])
      invariant all == Scan(src[p..], tmp[..tp], ColonOf(colonp), src[curtok..p])
    {
      var ch := src[p];
      ghost var tok := src[curtok..p];
      p := p + 1;
      assert src[p - 1..][1..] == src[p..];
      if IsHex(ch) {
        assert src[curtok..p] == tok + [ch];
        seen := seen + 1;
        if seen > 4 {
          return false, 0, -1;
        }
        val := val * 16 + HexOf(ch);
        assert (tok + [ch])[..|tok|] == tok;
        continue;
      }
      if ch == ':' {
        curtok := p;
        assert src[curtok..p] == "";
        if seen == 0 {
          if colonp >= 0 {
            return false, 0, -1;
          }
          colonp := tp;
          continue;
        } else if p == |src| {
          return false, 0, -1;
        }
        if tp + 2 > endp {
          return false, 0, -1;
        }
        Store(tmp, tp, val);
        tp, seen, val := tp + 2, 0, 0;
        continue;
      }
      if ch == '.' && tp + 4 <= endp {
        assert src[curtok..] == tok + src[p - 1..];
        ok := StoreQuad(src, curtok, tmp, tp);
        return ok, tp + 4, colonp;
      }
      return false, 0, -1;
    }
    assert src[p..] == "";
    ok := true;
    if seen > 0 {
      if tp + 2 > endp {
        return false, 0, -1;
      }
      Store(tmp, tp, val);
      tp := tp + 2;
    }
  }

  method StoreQuad(src: string, curtok: nat, tmp: array<byte>, tp: nat) returns (ok: bool)
    requires curtok <= |src| && tp + 4 <= tmp.Length
    modifies tmp
    ensures match Parse4(src[curtok..], [], 0, false)
            case Some(q) => ok && tmp[..tp + 4] == old(tmp[..tp]) + q
            case None => !ok
    ensures forall k :: tp + 4 <= k < tmp.Length ==> tmp[k] == old(tmp[k])
  {
    var q := Pton4(src, curtok);
    if q == None {
      return false;
    }
    Exact4(src[curtok..], q.value);
    tmp[tp], tmp[tp + 1], tmp[tp + 2], tmp[tp + 3] := q.value[0], q.value[1], q.value[2], q.value[3];
    ok := true;
  }

  method Pton6(src: string) returns (r: Option<seq<byte>>)
    ensures r == Parse6(src)
  {
    var tmp := new byte[16](_ => 0);
    var endp, p := 16, 0;
    if p < |src| && src[p] == ':' {
      p := p + 1;
      if !(p < |src| && src[p] == ':') {
        return None;
      }
    }
    assert src[p..] == if p == 0 then src else src[1..];
    var ok, tp, colonp := ScanText(src, p, tmp);
    if !ok {
      return None;
    }
    if colonp >= 0 {
      if tp == endp {
        return None;
      }
      assert tmp[..tp][..colonp] == tmp[..colonp] && tmp[..tp][colonp..] == tmp[colonp..tp];
      Shift(tmp, colonp, tp);
      tp := endp;
    }
    if tp != endp {
      return None;
    }
    assert colonp < 0 ==> tmp[..] == tmp[..16];
    r := Some(tmp[..]);
  }

  function ColonOf(colonp: int): Option<nat> {
    if colonp < 0 then None else Some(colonp)
  }

  // *tp++ = val >> 8 and *tp++ = val
  method Store(tmp: array<byte>, tp: nat, val: nat)
    requires tp + 2 <= tmp.Length
    modifies tmp
    ensures tmp[..tp + 2] == old(tmp[..tp]) + Word(val)
    ensures forall k :: tp + 2 <= k < tmp.Length ==> tmp[k] == old(tmp[k])
  {
    tmp[tp] := val / 256 % 256;
    tmp[tp + 1] := val % 256;
  }

  const UV__INET6_ADDRSTRLEN := 46

  // The text in the buffer once the first i words have been dealt with.
  function Shape(w: seq<word>, base: int, len: nat, i: nat): string
    requires i <= |w| && -1 <= base && (base >= 0 ==> base + len <= |w|)
  {
    if base == -1 || i <= base then Join(Hexes(w[..i]), None)
    else if i <= base + len then Join(Hexes(w[..base]), None) + ":"
    else Join(Hexes(w[..base]), None) + "::" + Join(Hexes(w[base + len..i]), None)
  }

  // What the loop adds to it for word i.
  function Piece(w: seq<word>, base: int, len: nat, i: nat): string
    requires i < |w|
  {
    if base != -1 && base <= i < base + len then (if i == base then ":" else "")
    else (if i != 0 then ":" else "") + Hex(w[i])
  }

  lemma {:induction false} JoinMore(ws: seq<word>, x: word)
    ensures Join(Hexes(ws + [x]), None) == Join(Hexes(ws), None) + (if ws != [] then ":" else "") + Hex(x)
  {
    if ws == [] {
      assert ws + [x] == [x] && [x][1..] == [];
      assert Hexes([x]) == [Hex(x)];
    } else {
      var rest := ws[1..];
      JoinMore(rest, x);
      assert (ws + [x])[1..] == rest + [x];
      assert Hexes(ws) == [Hex(ws[0])] + Hexes(rest) && Hexes(ws)[1..] == Hexes(rest);
      assert Hexes(ws + [x]) == [Hex(ws[0])] + Hexes(rest + [x]) && Hexes(ws + [x])[1..] == Hexes(rest + [x]);
      HexesGroups(rest);
      HexesGroups(rest + [x]);
    }
  }

  lemma {:induction false} ShapeStep(w: seq<word>, base: int, len: nat, i: nat)
    requires i < |w| && -1 <= base && (base >= 0 ==> len >= 1 && base + len <= |w|)
    ensures Shape(w, base, len, i + 1) == Shape(w, base, len, i) + Piece(w, base, len, i)
  {
    if base == -1 || i < base {
      assert w[..i + 1] == w[..i] + [w[i]];
      JoinMore(w[..i], w[i]);
    } else if i >= base + len {
      ShapeRight(w, base, len, i);
    }
  }

  lemma {:induction false} ShapeRight(w: seq<word>, base: nat, len: nat, i: nat)
    requires len >= 1 && base + len <= i < |w|
    ensures Shape(w, base, len, i + 1) == Shape(w, base, len, i) + Piece(w, base, len, i)
  {
    var u, left := w[base + len..i], Join(Hexes(w[..base]), None);
    assert w[base + len..i + 1] == u + [w[i]];
    JoinMore(u, w[i]);
    if i == base + len {
      assert u == [] && Join(Hexes(u), None) == "";
      assert left + "::" + Hex(w[i]) == left + ":" + (":" + Hex(w[i]));
    } else {
      assert left + "::" + (Join(Hexes(u), None) + ":" + Hex(w[i]))
             == left + "::" + Join(Hexes(u), None) + (":" + Hex(w[i]));
    }
  }

  lemma {:induction false} JoinBound(ws: seq<word>)
    ensures |Join(Hexes(ws), None)| <= 5 * |ws| - (if ws != [] then 1 else 0)
  {
    if ws != [] {
      HexGroup(ws[0]);
      HexesGroups(ws[1..]);
      JoinBound(ws[1..]);
      assert Hexes(ws)[1..] == Hexes(ws[1..]);
    }
  }

  lemma {:induction false} ShapeBound(w: seq<word>, base: int, len: nat, i: nat)
    requires i <= |w| == 8 && -1 <= base && (base >= 0 ==> len >= 2 && base + len <= |w|)
    ensures |Shape(w, base, len, i)| <= 39
  {
    if base == -1 || i <= base {
      JoinBound(w[..i]);
    } else {
      JoinBound(w[..base]);
      if i > base + len {
        JoinBound(w[base + len..i]);
      }
    }
  }

  lemma {:induction false} Colons(h: string, j: string)
    ensures h + ":" + (":" + j) == h + "::" + j
  {
  }

  lemma {:induction false} RestJoin(left: seq<string>, right: seq<string>, q: Option<seq<byte>>)
    requires left != [] && (q.Some? ==> |q.value| == 4)
    ensures Rest(left, true, right, q) == Join(left, None) + "::" + Join(right, q)
  {
    if |left| > 1 {
      RestJoin(left[1..], right, q);
    } else {
      Colons(left[0], Join(right, q));
    }
  }

  // The finished buffer holds the chosen text.
  lemma {:induction false} ShapeText(w: seq<word>, base: int, len: nat)
    requires |w| == 8 && -1 <= base && (base >= 0 ==> len >= 2 && base + len <= 8)
             && !(base >= 0 && Embedded(w, base, len))
    ensures IsForm(FormOf(w, base, len))
    ensures Text(FormOf(w, base, len)) == Shape(w, base, len, 8) + if base != -1 && base + len == 8 then ":" else ""
  {
    if base == -1 {
      HexesGroups(w);
      assert w[..8] == w;
    } else {
      HexesGroups(w[..base]);
      HexesGroups(w[base + len..]);
      GapText(w, base, len);
    }
  }

  lemma {:induction false} GapText(w: seq<word>, base: nat, len: nat)
    requires |w| == 8 && base + len <= 8 && len >= 1
    requires Groups(Hexes(w[..base])) && Groups(Hexes(w[base + len..]))
    ensures Text(Form(Hexes(w[..base]), true, Hexes(w[base + len..]), None))
         == Shape(w, base, len, 8) + if base + len == 8 then ":" else ""
  {
    GapString(Hexes(w[..base]), Hexes(w[base + len..]));
    GapShape(w, base, len);
  }

  lemma {:induction false} GapString(left: seq<string>, right: seq<string>)
    requires Groups(left) && Groups(right)
    ensures Text(Form(left, true, right, None)) == Join(left, None) + "::" + Join(right, None)
  {
    var j := Join(right, None);
    if left == [] {
      assert ":" + (":" + j) == "" + "::" + j;
    } else {
      RestJoin(left, right, None);
    }
  }

  lemma {:induction false} GapShape(w: seq<word>, base: nat, len: nat)
    requires |w| == 8 && base + len <= 8 && len >= 1
    ensures Shape(w, base, len, 8) + (if base + len == 8 then ":" else "")
         == Join(Hexes(w[..base]), None) + "::" + Join(Hexes(w[base + len..]), None)
  {
    var h := Join(Hexes(w[..base]), None);
    assert w[base + len..8] == w[base + len..];
    if base + len == 8 {
      assert h + ":" + ":" == h + "::" + "";
    }
  }

  // ... and, with an embedded address, once that is printed as well.
  lemma {:induction false} ShapeQuad(w: seq<word>, len: nat)
    requires |w| == 8 && Embedded(w, 0, len)
    ensures IsForm(FormOf(w, 0, len))
    ensures |Shape(w, 0, len, 6)| <= 6
    ensures Text(FormOf(w, 0, len)) == Shape(w, 0, len, 6) + ":" + Text4(Word(w[6]) + Word(w[7]))
  {
    var u, q := w[len..6], Word(w[6]) + Word(w[7]);
    HexesGroups(u);
    assert w[..0] == [] && Join(Hexes(w[..0]), None) == "";
    if len == 6 {
      assert u == [];
      assert ":" + (":" + Text4(q)) == ":" + ":" + Text4(q);
    } else {
      ShapeMapped(w, q);
    }
  }

  lemma {:induction false} ShapeMapped(w: seq<word>, q: seq<byte>)
    requires |w| == 8 && |q| == 4 && IsForm(Form([], true, Hexes(w[5..6]), Some(q)))
    ensures |Shape(w, 0, 5, 6)| <= 6
    ensures Text(Form([], true, Hexes(w[5..6]), Some(q))) == Shape(w, 0, 5, 6) + ":" + Text4(q)
  {
    var h := Hex(w[5]);
    HexGroup(w[5]);
    assert w[5..6] == [w[5]] && w[..0] == [];
    OneHex(w[5], q);
    assert Shape(w, 0, 5, 6) == "" + "::" + h;
    MappedColons(h, Text4(q));
  }

  lemma {:induction false} OneHex(x: word, q: seq<byte>)
    requires |q| == 4
    ensures Hexes([x]) == [Hex(x)] && Join(Hexes([x]), None) == Hex(x) && Join(Hexes([]), None) == ""
    ensures Join(Hexes([x]), Some(q)) == Hex(x) + ":" + Text4(q)
  {
    assert Hexes([x])[1..] == [];
  }

  lemma {:induction false} MappedColons(h: string, t: string)
    ensures ":" + (":" + (h + ":" + t)) == "" + "::" + h + ":" + t
  {
  }

  // What is printed for b when [base, base + len) is the run of zero words to be compressed: dotted quads for mapped
  // and compatible IPv4 addresses, otherwise hexadecimal words with :: for the run.
  function TextOf(b: seq<byte>, base: int, len: nat): string
    requires |b| == 16 && -1 <= base && (base >= 0 ==> base + len <= 8)
  {
    if b[..12] == Zeros(10) + [255, 255] then "::ffff:" + Text4(b[12..])
    else if b[..12] == Zeros(12) && (b[12] != 0 || b[13] != 0) then "::" + Text4(b[12..])
    else if base == -1 then Join(Hexes(WordsOf(b)), None)
    else Join(Hexes(WordsOf(b)[..base]), None) + "::" + Join(Hexes(WordsOf(b)[base + len..]), None)
  }

  // The first n words and no more of w are zero, and no later run is as long.
  lemma {:induction false} BestIsFirst(w: seq<word>, base: int, len: nat, n: nat)
    requires |w| == 8 && IsBest(w, base, len) && 5 <= n < 8 && w[n] != 0 && forall i :: 0 <= i < n ==> w[i] == 0
    ensures base == 0 && len == n
  {
    assert ZeroRun(w, 0, n);
    assert base + len <= n || n < base;
  }

  lemma {:induction false} QuadBytes(b: seq<byte>)
    requires |b| == 16
    ensures Word(WordsOf(b)[6]) + Word(WordsOf(b)[7]) == b[12..]
  {
    WordBytes(b[12], b[13]);
    WordBytes(b[14], b[15]);
  }

  lemma {:induction false} MappedWords(b: seq<byte>)
    requires |b| == 16 && b[..12] == Zeros(10) + [255, 255]
    ensures var w := WordsOf(b); w[5] == 0xffff && forall i :: 0 <= i < 5 ==> w[i] == 0
  {
    assert forall i :: 0 <= i < 12 ==> b[i] == b[..12][i];
  }

  lemma {:induction false} MappedText(b: seq<byte>, base: int, len: nat)
    requires |b| == 16 && IsBest(WordsOf(b), base, len) && b[..12] == Zeros(10) + [255, 255]
    ensures base == 0 && len == 5 && IsForm(FormOf(WordsOf(b), 0, 5))
    ensures Text(FormOf(WordsOf(b), 0, 5)) == "::ffff:" + Text4(b[12..])
  {
    var w := WordsOf(b);
    MappedWords(b);
    BestIsFirst(w, base, len, 5);
    QuadBytes(b);
    ShapeQuad(w, 5);
    MappedShape(w);
    assert "::ffff" + ":" == "::ffff:";
  }

  lemma {:induction false} MappedShape(w: seq<word>)
    requires |w| == 8 && w[5] == 0xffff
    ensures Shape(w, 0, 5, 6) == "::ffff"
  {
    assert w[5..6] == [0xffff] && w[..0] == [];
    OneHex(0xffff, [0, 0, 0, 0]);
    HexFfff();
  }

  lemma {:induction false} HexFfff()
    ensures Hex(0xffff) == "ffff"
  {
    assert Hex(0xf) == "f" && Hex(0xff) == "ff" && Hex(0xfff) == "fff";
  }

  lemma {:induction false} CompatibleWords(b: seq<byte>)
    requires |b| == 16 && b[..12] == Zeros(12) && (b[12] != 0 || b[13] != 0)
    ensures var w := WordsOf(b); w[6] != 0 && forall i :: 0 <= i < 6 ==> w[i] == 0
  {
    assert forall i :: 0 <= i < 12 ==> b[i] == b[..12][i];
  }

  lemma {:induction false} CompatibleText(b: seq<byte>, base: int, len: nat)
    requires |b| == 16 && IsBest(WordsOf(b), base, len) && b[..12] == Zeros(12) && (b[12] != 0 || b[13] != 0)
    ensures base == 0 && len == 6 && IsForm(FormOf(WordsOf(b), 0, 6))
    ensures Text(FormOf(WordsOf(b), 0, 6)) == "::" + Text4(b[12..])
  {
    var w := WordsOf(b);
    CompatibleWords(b);
    BestIsFirst(w, base, len, 6);
    QuadBytes(b);
    ShapeQuad(w, 6);
    CompatibleShape(w);
  }

  lemma {:induction false} CompatibleShape(w: seq<word>)
    requires |w| == 8
    ensures Shape(w, 0, 6, 6) + ":" == "::"
  {
    assert w[..0] == [] && Join(Hexes([]), None) == "";
  }

  // No other address has a dotted quad.
  lemma {:induction false} NotEmbedded(b: seq<byte>, base: int, len: nat)
    requires |b| == 16 && IsBest(WordsOf(b), base, len) && base >= 0
    requires b[..12] != Zeros(10) + [255, 255] && !(b[..12] == Zeros(12) && (b[12] != 0 || b[13] != 0))
    ensures !Embedded(WordsOf(b), base, len)
  {
    var w := WordsOf(b);
    assert b[..12] == b[..10] + [b[10], b[11]];
    if Embedded(w, base, len) {
      forall i | 0 <= i < len
        ensures b[2 * i] == 0 && b[2 * i + 1] == 0
      {
        WordBytes(b[2 * i], b[2 * i + 1]);
        assert w[i] == 0;
      }
      WordBytes(b[10], b[11]);
      WordBytes(b[12], b[13]);
      if len == 6 {
        assert w[6] == 0 ==> ZeroRun(w, 0, 7);
        FirstBytes(b, 12);
      } else {
        FirstBytes(b, 10);
      }
    }
  }

  lemma {:induction false} FirstBytes(b: seq<byte>, n: nat)
    requires n <= |b| && n % 2 == 0 && forall i :: 0 <= i < n / 2 ==> b[2 * i] == 0 && b[2 * i + 1] == 0
    ensures b[..n] == Zeros(n)
  {
    forall k | 0 <= k < n
      ensures b[k] == 0
    {
      assert k == 2 * (k / 2) || k == 2 * (k / 2) + 1;
    }
  }

  // What is printed reads back, whatever the address.
  lemma {:induction false} PrintedReads(b: seq<byte>, base: int, len: nat)
    requires |b| == 16 && IsBest(WordsOf(b), base, len)
    ensures -1 <= base && (base >= 0 ==> base + len <= 8) && Parse6(TextOf(b, base, len)) == Some(b)
  {
    PrintedText(b, base, len);
    RoundTrip6(b, base, len);
  }

  lemma {:induction false} PrintedText(b: seq<byte>, base: int, len: nat)
    requires |b| == 16 && IsBest(WordsOf(b), base, len)
    ensures -1 <= base && (base >= 0 ==> base + len <= 8) && IsForm(FormOf(WordsOf(b), base, len))
    ensures Text(FormOf(WordsOf(b), base, len)) == TextOf(b, base, len)
  {
    var w := WordsOf(b);
    if b[..12] == Zeros(10) + [255, 255] {
      MappedText(b, base, len);
    } else if b[..12] == Zeros(12) && (b[12] != 0 || b[13] != 0) {
      CompatibleText(b, base, len);
    } else if base == -1 {
      HexesGroups(w);
    } else {
      NotEmbedded(b, base, len);
      HexesGroups(w[..base]);
      HexesGroups(w[base + len..]);
      GapString(Hexes(w[..base]), Hexes(w[base + len..]));
    }
  }

  // sprintf at tp
  method Put(tmp: array<char>, tp: nat, s: string) returns (tp': nat)
    requires tp + |s| < tmp.Length
    modifies tmp
    ensures tp' == tp + |s| && tmp[..tp'] == old(tmp[..tp]) + s && tmp[tp'] == '\0'
  {
    Fill(tmp, tp, |s| + 1, s);
    tp' := tp + |s|;
  }

  // *tp++ = c
  method PutChar(tmp: array<char>, tp: nat, c: char) returns (tp': nat)
    requires tp < tmp.Length
    modifies tmp
    ensures tp' == tp + 1 && tmp[..tp'] == old(tmp[..tp]) + [c]
  {
    tmp[tp] := c;
    tp' := tp + 1;
  }

  // The preprocessing loop, with |= on disjoint bits as addition.
  method WordsOfBytes(src: seq<byte>) returns (words: array<word>)
    requires |src| == 16
    ensures fresh(words) && words[..] == WordsOf(src)
  {
    words := new word[8](_ => 0);
    var i := 0;
    while i < 16
      invariant 0 <= i <= 16 && words.Length == 8
      invariant forall j :: 0 <= j < 8 ==>
        words[j]
          == (if 2 * j < i then src[2 * j] as int * 256 else 0) + (if 2 * j + 1 < i then src[2 * j + 1] as int else 0)
    {
      words[i / 2] := words[i / 2] + src[i] as int * (if i % 2 == 0 then 256 else 1);
      i := i + 1;
    }
  }

  lemma {:induction false} NoNul(b: seq<byte>, k: nat)
    requires k < |b| == 4
    ensures '\0' !in Tail4(b, k)
    decreases 4 - k
  {
    assert '\0' !in Dec(b[k]);
    if k < 3 {
      NoNul(b, k + 1);
    }
  }

  // strlen
  method StrLen(s: array<char>, at: nat) returns (n: nat)
    requires at < s.Length && '\0' in s[at..]
    ensures at + n < s.Length && s[at + n] == '\0' && '\0' !in s[at..at + n]
  {
    n := 0;
    while s[at + n] != '\0'
      invariant at + n < s.Length && '\0' !in s[at..at + n] && '\0' in s[at + n..]
      decreases s.Length - n
    {
      assert s[at + n..] == [s[at + n]] + s[at + n + 1..];
      assert s[at..at + n + 1] == s[at..at + n] + [s[at + n]];
      n := n + 1;
    }
  }

  // The first NUL of a from at on is the end of t.
  lemma {:induction false} FirstNul(a: string, at: nat, t: string, n: nat)
    requires at + |t| < |a| && a[at..at + |t|] == t && a[at + |t|] == '\0' && '\0' !in t
    requires at + n < |a| && a[at + n] == '\0' && '\0' !in a[at..at + n]
    ensures n == |t| && a[..at + n] == a[..at] + t
  {
    assert forall k :: 0 <= k < |t| ==> a[at + k] == t[k] && t[k] in t;
    assert forall k :: at <= k < at + n ==> a[k] == a[at..at + n][k - at];
  }

  // inet_ntop4 and strlen behind the first at characters; there is always room.
  method PutAddress(b: seq<byte>, tmp: array<char>, at: nat) returns (tp: nat)
    requires |b| == 4 && tmp.Length == UV__INET6_ADDRSTRLEN && at <= 7
    modifies tmp
    ensures tp < UV__INET6_ADDRSTRLEN && tmp[..tp] == old(tmp[..at]) + Text4(b)
  {
    ghost var t, before := Text4(b), tmp[..at];
    var err := Ntop4(b, tmp, at, UV__INET6_ADDRSTRLEN - at);
    assert tmp[..at] == before;
    NoNul(b, 0);
    assert tmp[at + |t|] in tmp[at..];
    var n := StrLen(tmp, at);
    FirstNul(tmp[..], at, t, n);
    tp := at + n;
  }

  // The embedded IPv4 address.
  method Quad(src: seq<byte>, tmp: array<char>, at: nat, len: nat) returns (tp: nat)
    requires |src| == 16 && tmp.Length == UV__INET6_ADDRSTRLEN && Embedded(WordsOf(src), 0, len)
    requires at <= 7 && tmp[..at] == Shape(WordsOf(src), 0, len, 6) + ":"
    modifies tmp
    ensures IsForm(FormOf(WordsOf(src), 0, len))
    ensures tp < UV__INET6_ADDRSTRLEN && tmp[..tp] == Text(FormOf(WordsOf(src), 0, len))
  {
    LastWords(src);
    ShapeQuad(WordsOf(src), len);
    tp := PutAddress(src[12..], tmp, at);
  }

  lemma {:induction false} LastWords(src: seq<byte>)
    requires |src| == 16
    ensures var w := WordsOf(src); src[12..] == Word(w[6]) + Word(w[7])
  {
    var w := WordsOf(src);
    assert w[6] == src[12] as int * 256 + src[13] as int && w[7] == src[14] as int * 256 + src[15] as int;
  }

  // One turn of the formatting loop, without the embedded address.
  method FormatWord(words: array<word>, tmp: array<char>, base: int, len: nat, i: nat, tp0: nat) returns (tp: nat)
    requires i < words.Length == 8 && tmp.Length == UV__INET6_ADDRSTRLEN
    requires tp0 + |Piece(words[..], base, len, i)| <= 39
    modifies tmp
    ensures tp <= 39 && tmp[..tp] == old(tmp[..tp0]) + Piece(words[..], base, len, i)
  {
    tp := tp0;
    if base != -1 && i >= base && i < base + len {
      if i == base {
        tp := PutChar(tmp, tp, ':');
      } else {
        assert tmp[..tp0] + "" == tmp[..tp0];
      }
      return;
    }
    tp := PutWord(tmp, tp, i != 0, words[i]);
  }

  method PutWord(tmp: array<char>, tp0: nat, colon: bool, x: word) returns (tp: nat)
    requires tp0 + (if colon then 1 else 0) + |Hex(x)| < tmp.Length
    modifies tmp
    ensures tp == tp0 + (if colon then 1 else 0) + |Hex(x)|
    ensures tmp[..tp] == old(tmp[..tp0]) + ((if colon then ":" else "") + Hex(x))
  {
    tp := tp0;
    if colon {
      tp := PutChar(tmp, tp, ':');
      assert tmp[..tp] == old(tmp[..tp0]) + ":";
    }
    tp := Put(tmp, tp, Hex(x));
    assert colon ==> old(tmp[..tp0]) + (":" + Hex(x)) == old(tmp[..tp0]) + ":" + Hex(x);
    assert "" + Hex(x) == Hex(x);
  }

  // The formatting of inet_ntop6 in its own buffer.
  method Format(src: seq<byte>, words: array<word>, tmp: array<char>, base: int, len: nat) returns (tp: nat)
    requires |src| == 16 && words[..] == WordsOf(src) && tmp.Length == UV__INET6_ADDRSTRLEN
    requires IsBest(WordsOf(src), base, len)
    modifies tmp
    ensures IsForm(FormOf(WordsOf(src), base, len))
    ensures tp < UV__INET6_ADDRSTRLEN && tmp[..tp] == Text(FormOf(WordsOf(src), base, len))
  {
    ghost var w := WordsOf(src);
    var i := 0;
    tp := 0;
    assert tmp[..0] == "" && w[..0] == [];
    while i < 8
      invariant 0 <= i <= 8 && tp <= 39 && tmp[..tp] == Shape(w, base, len, i)
      invariant i > 6 ==> !Embedded(w, base, len)
    {
      var inside := base != -1 && i >= base && i < base + len;
      var embedded := i == 6 && base == 0
        && (len == 6 || (len == 7 && words[7] != 1) || (len == 5 && words[5] == 0xffff));
      if !inside && embedded {
        ShapeQuad(w, len);
        tp := PutChar(tmp, tp, ':');
        tp := Quad(src, tmp, tp, len);
        return;
      }
      ShapeStep(w, base, len, i);
      ShapeBound(w, base, len, i + 1);
      tp := FormatWord(words, tmp, base, len, i, tp);
      i := i + 1;
    }
    ShapeText(w, base, len);
    if base != -1 && base + len == 8 {
      tp := PutChar(tmp, tp, ':');
    }
  }

  // The compressed run is the best one, the text always fits in 46 characters with its NUL, and it is copied out
  // whole or not at all.
  method Ntop6(src: seq<byte>, dst: array<char>, size: nat) returns (err: int, ghost base: int, ghost len: nat)
    requires |src| == 16 && size <= dst.Length
    modifies dst
    ensures IsBest(WordsOf(src), base, len) && -1 <= base && (base >= 0 ==> base + len <= 8)
    ensures var t := TextOf(src, base, len);
            && |t| + 1 <= UV__INET6_ADDRSTRLEN
            && err == (if |t| + 1 > size then UV_ENOSPC else 0)
            && (err == 0 ==> dst[..|t| + 1] == t + ['\0'] && dst[|t| + 1..] == old(dst[|t| + 1..]))
            && (err != 0 ==> dst[..] == old(dst[..]))
  {
    var words := WordsOfBytes(src);
    var best, bestLen := BestRun(words);
    base, len := best, bestLen;
    PrintedText(src, base, len);
    var tmp := new char[UV__INET6_ADDRSTRLEN];
    var tp := Format(src, words, tmp, best, bestLen);
    ghost var t := tmp[..tp];
    tp := PutChar(tmp, tp, '\0');
    if tp > size {
      return UV_ENOSPC, base, len;
    }
    StrCpy(dst, tmp, tp);
    err := 0;
  }

  // strcpy of the first n characters, NUL included.
  method StrCpy(dst: array<char>, src: array<char>, n: nat)
    requires n <= dst.Length && n <= src.Length && dst != src
    modifies dst
    ensures dst[..n] == src[..n] && dst[n..] == old(dst[n..])
  {
    var i := 0;
    while i < n
      invariant 0 <= i <= n
      invariant forall j :: 0 <= j < dst.Length ==> dst[j] == if j < i then src[j] else old(dst[j])
    {
      dst[i] := src[i];
      i := i + 1;
    }
  }

  // The text before a zone, if there is one.
  function Zoneless(s: string): string {
    if s == "" || s[0] == '%' then "" else [s[0]] + Zoneless(s[1..])
  }

  method StrChr(s: string, c: char) returns (n: nat)
    ensures n <= |s| && c !in s[..n] && (n < |s| ==> s[n] == c)
  {
    n := 0;
    while n < |s| && s[n] != c
      invariant n <= |s| && c !in s[..n]
    {
      n := n + 1;
    }
  }

  lemma {:induction false} ZonelessIs(s: string, n: nat)
    requires n <= |s| && '%' !in s[..n] && (n < |s| ==> s[n] == '%')
    ensures Zoneless(s) == s[..n]
  {
    if n > 0 {
      assert s[0] == s[..n][0];
      assert s[..n][1..] == s[1..][..n - 1];
      ZonelessIs(s[1..], n - 1);
    }
  }

  lemma {:induction false} GroupsBound(gs: seq<string>, q: Option<seq<byte>>)
    requires Groups(gs) && (q.Some? ==> |q.value| == 4)
    ensures |Join(gs, q)| <= 5 * |gs| + (if q.Some? then 15 else 0) - (if q.None? && gs != [] then 1 else 0)
  {
    if gs != [] {
      GroupsBound(gs[1..], q);
    } else if q.Some? {
      assert forall k :: 0 <= k < 4 ==> |Dec(q.value[k])| <= 3;
    }
  }

  // No accepted text is longer than 45 characters.
  lemma {:induction false} TextBound(f: Form)
    requires IsAddress(f)
    ensures |Text(f)| < UV__INET6_ADDRSTRLEN
  {
    GroupsBound(f.right, f.quad);
    if f.gap && f.left != [] {
      RestJoin(f.left, f.right, f.quad);
      GroupsBound(f.left, None);
    }
  }

  // AF_INET6 in uv_inet_pton: a zone is cut off before parsing, and the limit of 45 characters never refuses a
  // text that inet_pton6 would take.
  method Pton(src: string) returns (r: Option<seq<byte>>)
    ensures '%' !in src ==> r == Parse6(src)
    ensures forall p :: 0 <= p < |src| && src[p] == '%' && '%' !in src[..p] ==> r == Parse6(src[..p])
  {
    var p := StrChr(src, '%');
    ZonelessIs(src, p);
    assert forall q :: 0 <= q < p ==> src[..p][q] != '%';
    var s := src;
    if p < |src| {
      var len := p;
      if len > UV__INET6_ADDRSTRLEN - 1 {
        if Parse6(Zoneless(src)).Some? {
          ghost var f := ParsedForm(Zoneless(src));
          TextBound(f);
        }
        return None;
      }
      s := src[..len];
    } else {
      assert src[..p] == src;
    }
    r := Pton6(s);
  }
}

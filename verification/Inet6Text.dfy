module Inet6Text {
  // The text forms of IPv6 addresses (section 2.2 of RFC 4291) and what inet_pton6 of inet.c accepts.

  import opened Basics
  import opened Inet4

  const XDIGITS_L := "0123456789abcdef"
  const XDIGITS_U := "0123456789ABCDEF"

  predicate IsHex(c: char) {
    '0' <= c <= '9' || 'a' <= c <= 'f' || 'A' <= c <= 'F'
  }

  function HexOf(c: char): (d: nat)
    requires IsHex(c)
    ensures d < 16
  {
    if c <= '9' then c as int - '0' as int
    else if 'a' <= c then c as int - 'a' as int + 10
    else c as int - 'A' as int + 10
  }

  // A hexadecimal digit is one that is listed, and its value is its place in the list.
  lemma {:induction false} HexListed(c: char)
    ensures IsHex(c) <==> c in XDIGITS_L || c in XDIGITS_U
    ensures IsHex(c) ==> XDIGITS_L[HexOf(c)] == c || XDIGITS_U[HexOf(c)] == c
  {
    if IsHex(c) {
      var d := HexOf(c);
      assert XDIGITS_L[d] == c || XDIGITS_U[d] == c;
    }
  }

  predicate AllHex(g: string) {
    forall i :: 0 <= i < |g| ==> IsHex(g[i])
  }

  // A group of an address: one to four hexadecimal digits.
  predicate IsGroup(g: string) {
    1 <= |g| <= 4 && AllHex(g)
  }

  function HexVal(g: string): nat
    requires AllHex(g)
  {
    if g == "" then 0 else HexVal(g[..|g| - 1]) * 16 + HexOf(g[|g| - 1])
  }

  // The two bytes of a 16-bit value, in network order.
  function Word(v: nat): seq<byte> {
    [v / 256 % 256, v % 256]
  }

  function Zeros(n: nat): (z: seq<byte>)
    ensures |z| == n && forall i :: 0 <= i < n ==> z[i] == 0
  {
    seq(n, i => 0)
  }

  // left::right or, without a gap, right alone; right may end in a dotted quad.
  datatype Form = Form(left: seq<string>, gap: bool, right: seq<string>, quad: Option<seq<byte>>)

  predicate Groups(gs: seq<string>) {
    gs == [] || (IsGroup(gs[0]) && Groups(gs[1..]))
  }

  predicate IsForm(f: Form) {
    && Groups(f.left) && Groups(f.right)
    && (f.quad.Some? ==> |f.quad.value| == 4) && (f.gap || f.left == [])
  }

  // The number of bytes that are written out.
  function Width(f: Form): nat {
    2 * |f.left| + 2 * |f.right| + if f.quad.Some? then 4 else 0
  }

  // Eight groups' worth, or less with a gap for the rest, which is at least one group.
  predicate IsAddress(f: Form) {
    IsForm(f) && if f.gap then Width(f) <= 14 else Width(f) == 16
  }

  function Bytes(gs: seq<string>): (b: seq<byte>)
    requires Groups(gs)
    ensures |b| == 2 * |gs|
  {
    if gs == [] then [] else Word(HexVal(gs[0])) + Bytes(gs[1..])
  }

  function Octets(q: Option<seq<byte>>): seq<byte> {
    if q.Some? then q.value else []
  }

  // The bytes of the text that are written out.
  function Written(f: Form): seq<byte>
    requires IsForm(f)
  {
    Bytes(f.left) + (Bytes(f.right) + Octets(f.quad))
  }

  // The address that is meant.
  function Value(f: Form): (b: seq<byte>)
    requires IsAddress(f)
    ensures |b| == 16
  {
    Bytes(f.left) + Zeros(16 - Width(f)) + (Bytes(f.right) + Octets(f.quad))
  }

  // Groups and quad, with colons between them.
  function Join(gs: seq<string>, q: Option<seq<byte>>): string
    requires q.Some? ==> |q.value| == 4
  {
    if gs == [] then (if q.Some? then Text4(q.value) else "")
    else if |gs| == 1 && q.None? then gs[0]
    else gs[0] + ":" + Join(gs[1..], q)
  }

  // The text from the start of a group on.  A gap here is the second colon of "::".
  function Rest(left: seq<string>, gap: bool, right: seq<string>, q: Option<seq<byte>>): string
    requires q.Some? ==> |q.value| == 4
  {
    if left == [] then (if gap then ":" else "") + Join(right, q)
    else left[0] + ":" + Rest(left[1..], gap, right, q)
  }

  function Text(f: Form): string
    requires IsForm(f)
  {
    (if f.gap && f.left == [] then ":" else "") + Rest(f.left, f.gap, f.right, f.quad)
  }

  // The state of inet_pton6 between characters: the bytes stored, where the gap is, the current token.
  datatype Scanned = Scanned(tmp: seq<byte>, colon: Option<nat>)

  function Scan(s: string, tmp: seq<byte>, colon: Option<nat>, tok: string): Option<Scanned>
    requires AllHex(tok)
    decreases |s|
  {
    if s == "" then
      if tok == "" then Some(Scanned(tmp, colon))
      else if |tmp| + 2 > 16 then None
      else Some(Scanned(tmp + Word(HexVal(tok)), colon))
    else if IsHex(s[0]) then
      if |tok| == 4 then None else Scan(s[1..], tmp, colon, tok + [s[0]])
    else if s[0] == ':' then
      if tok == "" then
        if colon.Some? then None else Scan(s[1..], tmp, Some(|tmp|), "")
      else if s[1..] == "" || |tmp| + 2 > 16 then None
      else Scan(s[1..], tmp + Word(HexVal(tok)), colon, "")
    else if s[0] == '.' && |tmp| + 4 <= 16 then
      match Parse4(tok + s, [], 0, false)
      case Some(q) => Some(Scanned(tmp + q, colon))
      case None => None
    else
      None
  }

  // The shift after the scan.
  function Spread(r: Scanned): Option<seq<byte>> {
    match r.colon
    case Some(c) => if |r.tmp| >= 16 || c > |r.tmp| then None else Some(r.tmp[..c] + Zeros(16 - |r.tmp|) + r.tmp[c..])
    case None => if |r.tmp| == 16 then Some(r.tmp) else None
  }

  function Parse6(s: string): Option<seq<byte>> {
    if s != "" && s[0] == ':' && (|s| == 1 || s[1] != ':') then None
    else
      match Scan(if s != "" && s[0] == ':' then s[1..] else s, [], None, "")
      case Some(r) => Spread(r)
      case None => None
  }

  // The same text with small hexadecimal digits.
  function LowerChar(c: char): char {
    match c
    case 'A' => 'a'
    case 'B' => 'b'
    case 'C' => 'c'
    case 'D' => 'd'
    case 'E' => 'e'
    case 'F' => 'f'
    case _ => c
  }

  function Lower(s: string): (t: string)
    ensures |t| == |s| && forall i :: 0 <= i < |s| ==> t[i] == LowerChar(s[i])
  {
    if s == "" then "" else [LowerChar(s[0])] + Lower(s[1..])
  }

  lemma {:induction false} LowerHex(c: char)
    ensures IsHex(LowerChar(c)) <==> IsHex(c)
    ensures IsHex(c) ==> HexOf(LowerChar(c)) == HexOf(c)
    ensures !IsHex(c) || IsDigit(c) ==> LowerChar(c) == c
    ensures IsDigit(LowerChar(c)) <==> IsDigit(c)
  {
  }

  lemma {:induction false} LowerJoined(a: string, b: string)
    ensures Lower(a + b) == Lower(a) + Lower(b)
  {
  }

  lemma {:induction false} LowerAllHex(g: string)
    requires AllHex(g)
    ensures AllHex(Lower(g))
  {
    forall i | 0 <= i < |g|
      ensures IsHex(Lower(g)[i])
    {
      LowerHex(g[i]);
    }
  }

  lemma {:induction false} LowerPrefix(g: string, n: nat)
    requires n <= |g|
    ensures Lower(g)[..n] == Lower(g[..n])
  {
  }

  lemma {:induction false} LowerValue(g: string)
    requires AllHex(g) && AllHex(Lower(g))
    ensures HexVal(Lower(g)) == HexVal(g)
  {
    if g != "" {
      var n := |g| - 1;
      LowerPrefix(g, n);
      LowerHex(g[n]);
      LowerValue(g[..n]);
    }
  }

  lemma {:induction false} LowerQuad(s: string, done: seq<byte>, cur: byte, saw: bool)
    requires |done| <= 3
    ensures Parse4(Lower(s), done, cur, saw) == Parse4(s, done, cur, saw)
    decreases |s|
  {
    if s != "" {
      LowerHex(s[0]);
      assert Lower(s)[1..] == Lower(s[1..]);
      if IsDigit(s[0]) && cur * 10 + DigitOf(s[0]) <= 255 {
        LowerQuad(s[1..], done, cur * 10 + DigitOf(s[0]), true);
      } else if s[0] == '.' && |done| < 3 {
        LowerQuad(s[1..], done + [cur], 0, false);
      }
    }
  }

  lemma {:induction false} LowerScan(s: string, tmp: seq<byte>, colon: Option<nat>, tok: string)
    requires AllHex(tok)
    ensures AllHex(Lower(tok)) && Scan(Lower(s), tmp, colon, Lower(tok)) == Scan(s, tmp, colon, tok)
    decreases |s|
  {
    LowerAllHex(tok);
    LowerValue(tok);
    if s != "" {
      var t := s[1..];
      LowerHex(s[0]);
      assert Lower(s)[1..] == Lower(t);
      if IsHex(s[0]) {
        var more := tok + [s[0]];
        assert Lower(s)[0] == LowerChar(s[0]) && Lower(more) == Lower(tok) + [Lower(s)[0]];
        if |tok| != 4 {
          LowerScan(t, tmp, colon, more);
        }
      } else if s[0] == ':' {
        assert Lower("") == "" && (Lower(t) == "" <==> t == "");
        LowerScan(t, tmp, Some(|tmp|), "");
        LowerScan(t, tmp + Word(HexVal(tok)), colon, "");
      } else {
        LowerJoined(tok, s);
        LowerQuad(tok + s, [], 0, false);
      }
    }
  }

  // Large and small hexadecimal digits mean the same.
  lemma {:induction false} CaseFree(s: string)
    ensures Parse6(Lower(s)) == Parse6(s)
  {
    if s != "" {
      LowerHex(s[0]);
      if |s| > 1 {
        LowerHex(s[1]);
      }
      assert Lower(s)[1..] == Lower(s[1..]);
      LowerScan(s[1..], [], None, "");
    }
    LowerScan(s, [], None, "");
  }

  // Soundness: what the scan has accepted is the rest of some form.

  // tok followed by s is the rest of the form f, whose bytes and gap the scan has added to what it started with.
  ghost predicate Matches(s: string, tmp: seq<byte>, colon: Option<nat>, tok: string, r: Scanned, f: Form) {
    && IsForm(f) && tok + s == Rest(f.left, f.gap, f.right, f.quad)
    && r.tmp == tmp + Written(f) && |r.tmp| <= 16
    && r.colon == (if f.gap then Some(|tmp| + 2 * |f.left|) else colon) && (f.gap ==> colon.None?)
  }

  lemma {:induction false} Regroup<X>(a: seq<X>, b: seq<X>, c: seq<X>, d: seq<X>)
    ensures a + b + (c + d) == a + (b + c + d) == a + ((b + c) + d) == a + (b + (c + d))
  {
  }

  lemma {:induction false} MatchEnd(tmp: seq<byte>, colon: Option<nat>, tok: string) returns (f: Form)
    requires (tok == "" || IsGroup(tok)) && |tmp| <= 16 && Scan("", tmp, colon, tok).Some?
    ensures Matches("", tmp, colon, tok, Scan("", tmp, colon, tok).value, f)
  {
    if tok == "" {
      f := Form([], false, [], None);
    } else {
      f := Form([], false, [tok], None);
      assert Bytes([tok]) == Word(HexVal(tok));
    }
    assert tok + "" == tok && Written(f) == Bytes(f.right) && tmp + [] == tmp;
  }

  lemma {:induction false} MatchDigit(s: string, tmp: seq<byte>, colon: Option<nat>, tok: string, r: Scanned, f: Form)
    requires s != "" && Matches(s[1..], tmp, colon, tok + [s[0]], r, f)
    ensures Matches(s, tmp, colon, tok, r, f)
  {
    assert s == [s[0]] + s[1..];
    assert tok + s == (tok + [s[0]]) + s[1..];
  }

  lemma {:induction false} MatchGap(s: string, tmp: seq<byte>, r: Scanned, g: Form) returns (f: Form)
    requires Matches(s, tmp, Some(|tmp|), "", r, g)
    ensures Matches(":" + s, tmp, None, "", r, f)
  {
    f := Form([], true, g.right, g.quad);
    assert "" + s == s && "" + (":" + s) == ":" + s;
  }

  // A group before a gap ...
  lemma {:induction false} MatchLeft(s: string, tmp: seq<byte>, colon: Option<nat>, tok: string, r: Scanned,
          g: Form) returns (f: Form)
    requires IsGroup(tok) && Matches(s, tmp + Word(HexVal(tok)), colon, "", r, g) && g.gap
    ensures Matches(":" + s, tmp, colon, tok, r, f)
  {
    var w := Word(HexVal(tok));
    f := Form([tok] + g.left, true, g.right, g.quad);
    assert f.left[1..] == g.left;
    assert "" + s == s && tok + (":" + s) == tok + ":" + s;
    assert Bytes(f.left) == w + Bytes(g.left);
    Regroup(tmp, w, Bytes(g.left), Bytes(g.right) + Octets(g.quad));
  }

  // ... or after it, or where there is none.
  lemma {:induction false} MatchRight(s: string, tmp: seq<byte>, colon: Option<nat>, tok: string, r: Scanned,
          g: Form) returns (f: Form)
    requires IsGroup(tok) && s != "" && Matches(s, tmp + Word(HexVal(tok)), colon, "", r, g) && !g.gap
    ensures Matches(":" + s, tmp, colon, tok, r, f)
  {
    var w := Word(HexVal(tok));
    f := Form([], false, [tok] + g.right, g.quad);
    assert f.right[1..] == g.right;
    assert "" + s == s == Join(g.right, g.quad);
    assert Join(f.right, f.quad) == tok + ":" + s;
    assert tok + (":" + s) == tok + ":" + s;
    assert Bytes(f.right) == w + Bytes(g.right);
    assert Written(g) == Bytes(g.right) + Octets(g.quad) && Written(f) == Bytes(f.right) + Octets(f.quad);
    Regroup(tmp, w, Bytes(g.right), Octets(g.quad));
  }

  lemma {:induction false} MatchQuad(s: string, tmp: seq<byte>, colon: Option<nat>, tok: string) returns (f: Form)
    requires AllHex(tok) && |tmp| + 4 <= 16 && s != "" && s[0] == '.' && Scan(s, tmp, colon, tok).Some?
    ensures Matches(s, tmp, colon, tok, Scan(s, tmp, colon, tok).value, f)
  {
    var q := Parse4(tok + s, [], 0, false).value;
    Exact4(tok + s, q);
    f := Form([], false, [], Some(q));
    assert Written(f) == q;
  }

  lemma {:induction false} Scanning(s: string, tmp: seq<byte>, colon: Option<nat>, tok: string, r: Scanned)
    returns (f: Form)
    requires AllHex(tok) && |tok| <= 4 && |tmp| <= 16 && Scan(s, tmp, colon, tok) == Some(r)
    ensures Matches(s, tmp, colon, tok, r, f)
    decreases |s|
  {
    if s == "" {
      f := MatchEnd(tmp, colon, tok);
    } else {
      var rest := s[1..];
      assert s == [s[0]] + rest;
      if IsHex(s[0]) {
        f := Scanning(rest, tmp, colon, tok + [s[0]], r);
        MatchDigit(s, tmp, colon, tok, r, f);
      } else if s[0] == ':' {
        if tok == "" {
          f := Scanning(rest, tmp, Some(|tmp|), "", r);
          f := MatchGap(rest, tmp, r, f);
        } else {
          f := Scanning(rest, tmp + Word(HexVal(tok)), colon, "", r);
          if f.gap {
            f := MatchLeft(rest, tmp, colon, tok, r, f);
          } else {
            f := MatchRight(rest, tmp, colon, tok, r, f);
          }
        }
      } else {
        f := MatchQuad(s, tmp, colon, tok);
      }
    }
  }

  // Completeness: the scan takes every form.

  lemma {:induction false} ScanDigits(g: string, rest: string, tmp: seq<byte>, colon: Option<nat>, tok: string)
    requires AllHex(g) && AllHex(tok) && |tok| + |g| <= 4
    ensures Scan(g + rest, tmp, colon, tok) == Scan(rest, tmp, colon, tok + g)
    decreases |g|
  {
    if g == "" {
      assert g + rest == rest && tok + g == tok;
    } else {
      assert (g + rest)[1..] == g[1..] + rest;
      ScanDigits(g[1..], rest, tmp, colon, tok + [g[0]]);
      assert (tok + [g[0]]) + g[1..] == tok + g;
    }
  }

  lemma {:induction false} ScanGroup(g: string, rest: string, tmp: seq<byte>, colon: Option<nat>)
    requires IsGroup(g) && rest != "" && |tmp| + 2 <= 16
    ensures Scan(g + ":" + rest, tmp, colon, "") == Scan(rest, tmp + Word(HexVal(g)), colon, "")
  {
    ScanDigits(g, ":" + rest, tmp, colon, "");
    assert g + ":" + rest == g + (":" + rest) && "" + g == g;
    assert (":" + rest)[1..] == rest;
  }

  lemma {:induction false} ScanQuad(q: seq<byte>, tmp: seq<byte>, colon: Option<nat>)
    requires |q| == 4 && |tmp| + 4 <= 16
    ensures Scan(Text4(q), tmp, colon, "") == Some(Scanned(tmp + q, colon))
  {
    var d, rest := Dec(q[0]), "." + Tail4(q, 1);
    assert Text4(q) == d + rest;
    ScanDigits(d, rest, tmp, colon, "");
    assert "" + d == d;
    Exact4(Text4(q), q);
  }

  lemma {:induction false} JoinHead(gs: seq<string>, q: Option<seq<byte>>)
    requires Groups(gs) && (q.Some? ==> |q.value| == 4) && (gs != [] || q.Some?)
    ensures Join(gs, q) != "" && IsHex(Join(gs, q)[0])
  {
  }

  lemma {:induction false} ScanJoin(gs: seq<string>, q: Option<seq<byte>>, tmp: seq<byte>, colon: Option<nat>)
    requires Groups(gs) && (q.Some? ==> |q.value| == 4) && |tmp| + 2 * |gs| + |Octets(q)| <= 16
    ensures Scan(Join(gs, q), tmp, colon, "") == Some(Scanned(tmp + (Bytes(gs) + Octets(q)), colon))
  {
    if gs == [] {
      if q.Some? {
        ScanQuad(q.value, tmp, colon);
      }
      assert Bytes(gs) + Octets(q) == Octets(q) && tmp + [] == tmp;
    } else if |gs| == 1 && q.None? {
      ScanDigits(gs[0], "", tmp, colon, "");
      assert gs[0] + "" == gs[0] && "" + gs[0] == gs[0];
      assert Bytes(gs) + Octets(q) == Word(HexVal(gs[0]));
    } else {
      JoinHead(gs[1..], q);
      ScanGroup(gs[0], Join(gs[1..], q), tmp, colon);
      ScanJoin(gs[1..], q, tmp + Word(HexVal(gs[0])), colon);
      Regroup(tmp, Word(HexVal(gs[0])), Bytes(gs[1..]), Octets(q));
    }
  }

  lemma {:induction false} ScanRest(left: seq<string>, right: seq<string>, q: Option<seq<byte>>, tmp: seq<byte>)
    requires Groups(left) && Groups(right) && (q.Some? ==> |q.value| == 4)
    requires |tmp| + 2 * |left| + 2 * |right| + |Octets(q)| <= 16
    ensures Scan(Rest(left, true, right, q), tmp, None, "")
         == Some(Scanned(tmp + (Bytes(left) + (Bytes(right) + Octets(q))), Some(|tmp| + 2 * |left|)))
  {
    var t := Bytes(right) + Octets(q);
    if left == [] {
      assert (":" + Join(right, q))[1..] == Join(right, q);
      ScanJoin(right, q, tmp, Some(|tmp|));
      assert Bytes(left) + t == t;
    } else {
      var w, rest := Word(HexVal(left[0])), Rest(left[1..], true, right, q);
      ScanGroup(left[0], rest, tmp, None);
      ScanRest(left[1..], right, q, tmp + w);
      Regroup(tmp, w, Bytes(left[1..]), t);
    }
  }

  // Only a gap with nothing before it starts with a colon.
  lemma {:induction false} RestHead(f: Form)
    requires IsForm(f) && !(f.gap && f.left == []) && Rest(f.left, f.gap, f.right, f.quad) != ""
    ensures IsHex(Rest(f.left, f.gap, f.right, f.quad)[0])
  {
    if f.left == [] {
      JoinHead(f.right, f.quad);
    }
  }

  lemma {:induction false} SpreadForm(f: Form, r: Scanned)
    requires IsForm(f) && r == Scanned(Written(f), if f.gap then Some(2 * |f.left|) else None)
    ensures Spread(r) == if IsAddress(f) then Some(Value(f)) else None
  {
    var c := 2 * |f.left|;
    var t := Bytes(f.right) + Octets(f.quad);
    assert Written(f)[..c] == Bytes(f.left) && Written(f)[c..] == t;
    if !f.gap && Width(f) == 16 {
      assert Value(f) == Written(f);
    }
  }

  lemma {:induction false} FormParsed(f: Form)
    requires IsAddress(f)
    ensures Parse6(Text(f)) == Some(Value(f))
  {
    var s, rest := Text(f), Rest(f.left, f.gap, f.right, f.quad);
    if f.gap {
      ScanRest(f.left, f.right, f.quad, []);
      if f.left == [] {
        assert s[1..] == rest;
      } else {
        RestHead(f);
        assert s == rest;
      }
    } else {
      JoinHead(f.right, f.quad);
      ScanJoin(f.right, f.quad, [], None);
      assert Written(f) == Bytes(f.right) + Octets(f.quad);
      assert s == rest == Join(f.right, f.quad);
    }
    assert [] + Written(f) == Written(f);
    SpreadForm(f, Scanned(Written(f), if f.gap then Some(2 * |f.left|) else None));
  }

  lemma {:induction false} ParsedForm(s: string) returns (f: Form)
    requires Parse6(s).Some?
    ensures IsAddress(f) && Text(f) == s && Parse6(s) == Some(Value(f))
  {
    var doubled := s != "" && s[0] == ':';
    var t := if doubled then s[1..] else s;
    var r := Scan(t, [], None, "").value;
    f := Scanning(t, [], None, "", r);
    assert "" + t == t && [] + Written(f) == Written(f);
    if t != "" && !(f.gap && f.left == []) {
      RestHead(f);
    }
    assert doubled ==> s == ":" + t;
    SpreadForm(f, r);
  }

  // inet_pton6 accepts exactly the text forms of RFC 4291, and yields the address they mean.
  lemma {:induction false} Exact6(s: string, b: seq<byte>)
    ensures Parse6(s) == Some(b) <==> exists f :: IsAddress(f) && Text(f) == s && Value(f) == b
  {
    if Parse6(s) == Some(b) {
      var f := ParsedForm(s);
    }
    forall f | IsAddress(f) && Text(f) == s && Value(f) == b
      ensures Parse6(s) == Some(b)
    {
      FormParsed(f);
    }
  }

  lemma {:induction false} HexBound(g: string)
    requires AllHex(g) && |g| <= 4
    ensures HexVal(g) < (if |g| == 0 then 1 else if |g| == 1 then 16 else if |g| == 2 then 256
                         else if |g| == 3 then 4096 else 65536)
  {
    if g != "" {
      HexBound(g[..|g| - 1]);
    }
  }

  // Network order: the high byte of a group comes first.
  lemma {:induction false} GroupPlaced(g: string)
    requires IsGroup(g)
    ensures HexVal(g) < 65536
    ensures Parse6(g + "::") == Some([HexVal(g) / 256, HexVal(g) % 256] + Zeros(14))
    ensures Parse6("::" + g) == Some(Zeros(14) + [HexVal(g) / 256, HexVal(g) % 256])
  {
    HexBound(g);
    GroupFirst(g);
    GroupLast(g);
  }

  lemma {:induction false} OneGroup(g: string)
    requires IsGroup(g) && HexVal(g) < 65536
    ensures Groups([g]) && Bytes([g]) == [HexVal(g) / 256, HexVal(g) % 256] && Join([g], None) == g
    ensures Rest([g], true, [], None) == g + "::"
  {
    assert Groups([g][1..]) && Bytes([g][1..]) == [];
    assert Bytes([g]) == Word(HexVal(g)) + [];
    assert Rest([g][1..], true, [], None) == ":" + "";
    assert g + ":" + (":" + "") == g + "::";
  }

  lemma {:induction false} GroupFirst(g: string)
    requires IsGroup(g) && HexVal(g) < 65536
    ensures Parse6(g + "::") == Some([HexVal(g) / 256, HexVal(g) % 256] + Zeros(14))
  {
    var f := Form([g], true, [], None);
    OneGroup(g);
    assert Text(f) == "" + (g + "::") == g + "::";
    assert Value(f) == Bytes([g]) + Zeros(14) + ([] + []) == [HexVal(g) / 256, HexVal(g) % 256] + Zeros(14);
    FormParsed(f);
  }

  lemma {:induction false} GroupLast(g: string)
    requires IsGroup(g) && HexVal(g) < 65536
    ensures Parse6("::" + g) == Some(Zeros(14) + [HexVal(g) / 256, HexVal(g) % 256])
  {
    var f := Form([], true, [g], None);
    OneGroup(g);
    assert Text(f) == ":" + (":" + g) == "::" + g;
    assert Value(f) == [] + Zeros(14) + (Bytes([g]) + []) == Zeros(14) + [HexVal(g) / 256, HexVal(g) % 256];
    FormParsed(f);
  }
}

module Inet4 {
  // inet_ntop4 and inet_pton4 of inet.c.  A C string is the sequence of its characters before the NUL.

  import opened Basics

  type byte = x: int | 0 <= x < 256

  const UV_ENOSPC := -28
  const UV_EINVAL := -22

  function DigitChar(d: nat): char
    requires d < 10
  {
    '0' + d as char
  }

  lemma {:induction false} DigitListed(d: nat)
    requires d < 10
    ensures DigitChar(d) == "0123456789"[d]
  {
  }

  predicate IsDigit(c: char) {
    '0' <= c <= '9'
  }

  function DigitOf(c: char): (d: nat)
    requires IsDigit(c)
    ensures d < 10 && DigitChar(d) == c
  {
    c as int - '0' as int
  }

  // What "%u" prints.
  function Dec(n: byte): string {
    if n < 10 then [DigitChar(n)]
    else if n < 100 then [DigitChar(n / 10), DigitChar(n % 10)]
    else [DigitChar(n / 100), DigitChar(n / 10 % 10), DigitChar(n % 10)]
  }

  // The octets of b from k on.
  function Tail4(b: seq<byte>, k: nat): string
    requires k < |b| == 4
    decreases 4 - k
  {
    Dec(b[k]) + if k < 3 then "." + Tail4(b, k + 1) else ""
  }

  function Text4(b: seq<byte>): string
    requires |b| == 4
  {
    Tail4(b, 0)
  }

  lemma {:induction false} QuadText(b: seq<byte>)
    requires |b| == 4
    ensures Text4(b) == Dec(b[0]) + "." + Dec(b[1]) + "." + Dec(b[2]) + "." + Dec(b[3])
  {
    assert Tail4(b, 2) == Dec(b[2]) + "." + Dec(b[3]);
    assert Tail4(b, 1) == Dec(b[1]) + "." + Tail4(b, 2);
  }

  // What inet_pton4 makes of the rest s of its input, with the octets in done complete and, if a digit of the
  // next one has been seen, its value so far in cur.
  function Parse4(s: string, done: seq<byte>, cur: byte, saw: bool): Option<seq<byte>>
    requires |done| <= 3
    decreases |s|
  {
    if s == "" then
      if |done| == 3 && saw then Some(done + [cur]) else None
    else if IsDigit(s[0]) then
      var nw := cur * 10 + DigitOf(s[0]);
      if (saw && cur == 0) || nw > 255 then None else Parse4(s[1..], done, nw, true)
    else if s[0] == '.' && saw && |done| < 3 then
      Parse4(s[1..], done + [cur], 0, false)
    else
      None
  }

  method Pton4(src: string, from: nat) returns (r: Option<seq<byte>>)
    requires from <= |src|
    ensures r == Parse4(src[from..], [], 0, false)
  {
    var tmp := new byte[4];
    var saw, octets, tp, p := false, 0, 0, from;
    tmp[0] := 0;
    while p < |src|
      invariant from <= p <= |src| && tp < 4 && octets == tp + (if saw then 1 else 0) && (saw || tmp[tp] == 0)
      invariant Parse4(src[from..], [], 0, false) == Parse4(src[p..], tmp[..tp], tmp[tp], saw)
    {
      var ch := src[p];
      p := p + 1;
      assert src[p - 1..][1..] == src[p..];
      if IsDigit(ch) {
        var nw := tmp[tp] * 10 + DigitOf(ch);
        if saw && tmp[tp] == 0 {
          return None;
        }
        if nw > 255 {
          return None;
        }
        ghost var done := tmp[..tp];
        tmp[tp] := nw;
        assert tmp[..tp] == done;
        if !saw {
          octets := octets + 1;
          if octets > 4 {
            return None;
          }
          saw := true;
        }
      } else if ch == '.' && saw {
        if octets == 4 {
          return None;
        }
        ghost var done := tmp[..tp] + [tmp[tp]];
        tp := tp + 1;
        tmp[tp] := 0;
        assert tmp[..tp] == done;
        saw := false;
      } else {
        return None;
      }
    }
    if octets < 4 {
      return None;
    }
    assert tmp[..] == tmp[..3] + [tmp[3]];
    r := Some(tmp[..]);
  }

  // The text is complete in a buffer of size characters, NUL included, or nothing is written.
  method Ntop4(src: seq<byte>, dst: array<char>, at: nat, size: nat) returns (err: int)
    requires |src| == 4 && at + size <= dst.Length
    modifies dst
    ensures err == if |Text4(src)| < size then 0 else UV_ENOSPC
    ensures err == 0 ==> dst[at..at + |Text4(src)|] == Text4(src) && dst[at + |Text4(src)|] == '\0'
    ensures forall i :: 0 <= i < dst.Length && !(err == 0 && at <= i < at + size) ==> dst[i] == old(dst[i])
  {
    var tmp := Dec(src[0]) + "." + Dec(src[1]) + "." + Dec(src[2]) + "." + Dec(src[3]);
    assert tmp == Text4(src);
    if |tmp| >= size {
      return UV_ENOSPC;
    }
    Fill(dst, at, size, tmp);
    dst[at + size - 1] := '\0';
    err := 0;
  }

  // strncpy
  method Fill(dst: array<char>, at: nat, size: nat, s: string)
    requires at + size <= dst.Length
    modifies dst
    ensures forall j :: 0 <= j < dst.Length ==>
              dst[j] == if at <= j < at + size then (if j - at < |s| then s[j - at] else '\0') else old(dst[j])
  {
    var i := 0;
    while i < size
      invariant 0 <= i <= size
      invariant forall j :: 0 <= j < dst.Length ==>
        dst[j] == if at <= j < at + i then (if j - at < |s| then s[j - at] else '\0') else old(dst[j])
    {
      dst[at + i] := if i < |s| then s[i] else '\0';
      i := i + 1;
    }
  }

  lemma {:induction false} ParseDigit(d: nat, s: string, done: seq<byte>, cur: byte, saw: bool)
    requires d < 10 && |done| <= 3 && !(saw && cur == 0) && cur * 10 + d < 256
    ensures Parse4([DigitChar(d)] + s, done, cur, saw) == Parse4(s, done, cur * 10 + d, true)
  {
    assert ([DigitChar(d)] + s)[1..] == s;
  }

  lemma {:induction false} DecMore(n: byte, d: nat)
    requires 0 < n && d < 10 && n * 10 + d < 256
    ensures Dec(n * 10 + d) == Dec(n) + [DigitChar(d)]
  {
  }

  // Reading an octet followed by s.
  lemma {:induction false} ParseOctet(n: byte, s: string, done: seq<byte>)
    requires |done| <= 3
    ensures Parse4(Dec(n) + s, done, 0, false) == Parse4(s, done, n, true)
    decreases n
  {
    if n < 10 {
      ParseDigit(n, s, done, 0, false);
    } else {
      var d := [DigitChar(n % 10)];
      DecMore(n / 10, n % 10);
      assert Dec(n / 10) + d + s == Dec(n / 10) + (d + s);
      ParseOctet(n / 10, d + s, done);
      ParseDigit(n % 10, s, done, n / 10, true);
    }
  }

  lemma {:induction false} ParseTail(b: seq<byte>, k: nat)
    requires k < |b| == 4
    ensures Parse4(Tail4(b, k), b[..k], 0, false) == Some(b)
    decreases 4 - k
  {
    if k < 3 {
      var s := "." + Tail4(b, k + 1);
      ParseOctet(b[k], s, b[..k]);
      ParseTail(b, k + 1);
      assert s[1..] == Tail4(b, k + 1) && b[..k] + [b[k]] == b[..k + 1];
    } else {
      ParseOctet(b[k], "", b[..k]);
      assert b[..3] + [b[3]] == b;
    }
  }

  // What has been read and what is left spell an address.
  lemma {:induction false} ParsedTail(s: string, done: seq<byte>, cur: byte, saw: bool, b: seq<byte>)
    requires |done| <= 3 && (saw || cur == 0) && Parse4(s, done, cur, saw) == Some(b)
    ensures |b| == 4 && b[..|done|] == done && Tail4(b, |done|) == if saw then Dec(cur) + s else s
    decreases |s|
  {
    if s != "" {
      if IsDigit(s[0]) {
        var nw := cur * 10 + DigitOf(s[0]);
        ParsedTail(s[1..], done, nw, true, b);
        ParsedDigit(s, cur, saw, Tail4(b, |done|));
      } else {
        ParsedTail(s[1..], done + [cur], 0, false, b);
        ParsedDot(s, done, cur, b);
      }
    }
  }

  lemma {:induction false} Shifted(a: string, s: string)
    requires s != ""
    ensures (a + [s[0]]) + s[1..] == a + s && (a == "" ==> a + s == s && a + [s[0]] == [s[0]])
  {
  }

  // A digit that has been read belongs to the octet it continues ...
  lemma {:induction false} ParsedDigit(s: string, cur: byte, saw: bool, tail: string)
    requires s != "" && IsDigit(s[0]) && cur * 10 + DigitOf(s[0]) < 256 && (if saw then cur != 0 else cur == 0)
    requires tail == Dec(cur * 10 + DigitOf(s[0])) + s[1..]
    ensures tail == if saw then Dec(cur) + s else s
  {
    if saw {
      DecMore(cur, DigitOf(s[0]));
      Shifted(Dec(cur), s);
    } else {
      Shifted("", s);
    }
  }

  // ... and a dot ends one.
  lemma {:induction false} ParsedDot(s: string, done: seq<byte>, cur: byte, b: seq<byte>)
    requires s != "" && s[0] == '.' && |done| < 3 && |b| == 4
    requires b[..|done| + 1] == done + [cur] && Tail4(b, |done| + 1) == s[1..]
    ensures b[..|done|] == done && Tail4(b, |done|) == Dec(cur) + s
  {
    var k := |done|;
    assert s == "." + s[1..];
    assert (done + [cur])[k] == cur && (done + [cur])[..k] == done;
    assert b[..k + 1][k] == b[k] && b[..k + 1][..k] == b[..k];
  }

  // inet_pton4 accepts exactly what inet_ntop4 prints, and the two undo each other.
  lemma {:induction false} Exact4(s: string, b: seq<byte>)
    ensures Parse4(s, [], 0, false) == Some(b) <==> |b| == 4 && s == Text4(b)
  {
    if Parse4(s, [], 0, false) == Some(b) {
      ParsedTail(s, [], 0, false, b);
    }
    if |b| == 4 {
      ParseTail(b, 0);
      assert b[..0] == [];
    }
  }
}

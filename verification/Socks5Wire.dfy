module Socks5Wire {
  // What the SOCKS5 parser accepts and what it refuses: every phase for every input.

  import opened Socks5

  // The bytes that a field of announced length |s| takes from the stream: its own, but at least one.
  function Padded(s: seq<byte>, j: byte): seq<byte> {
    if s == [] then [j] else s
  }

  // The first n bytes of t as such a field.
  lemma {:induction false} FieldOf(t: seq<byte>, n: nat)
    requires |t| >= (if n == 0 then 1 else n)
    ensures var m := if n == 0 then 1 else n; |t[..n]| == n && Padded(t[..n], t[0]) == t[..m] && t == t[..m] + t[m..]
  {
  }

  lemma {:induction false} FieldTaken(t: seq<byte>, n: byte) returns (f: seq<byte>, j: byte, rest: seq<byte>)
    requires |t| >= (if n == 0 then 1 else n)
    ensures f == t[..n] && t == Padded(f, j) + rest && rest == t[if n == 0 then 1 else n..]
  {
    FieldOf(t, n);
    f, j, rest := t[..n], t[0], t[if n == 0 then 1 else n..];
  }

  lemma {:induction false} FieldAhead(f: seq<byte>, j: byte, rest: seq<byte>)
    ensures var t := Padded(f, j) + rest;
            |t| >= |Padded(f, j)| == (if |f| == 0 then 1 else |f|) && t[..|f|] == f && t[|Padded(f, j)|..] == rest
  {
  }

  // Authentication methods.

  lemma {:induction false} MethodsMean(ms: seq<byte>)
    ensures S5_AUTH_NONE in MethodBits(ms) <==> 0 in ms
    ensures S5_AUTH_GSSAPI in MethodBits(ms) <==> 1 in ms
    ensures S5_AUTH_PASSWD in MethodBits(ms) <==> 2 in ms
    ensures MethodBits(ms) <= {S5_AUTH_NONE, S5_AUTH_GSSAPI, S5_AUTH_PASSWD}
  {
    if ms != [] {
      assert ms == [ms[0]] + ms[1..];
      MethodsMean(ms[1..]);
    }
  }

  function GreetingFrame(ms: seq<byte>, j: byte): seq<byte>
    requires |ms| <= 255
  {
    [5, |ms|] + Padded(ms, j)
  }

  lemma {:induction false} MethodsShort(c: Context, t: seq<byte>)
    requires InBounds(c) && c.state == Methods && (t == [] || c.arg0 + |t| < c.arg1)
    ensures Parse(c, t).event == Ok
    decreases |t|
  {
    if t != [] {
      MethodsShort(Step(c, t[0]).ctx, t[1..]);
    }
  }

  // From the number of methods on: the field is taken whole, or more bytes are needed.
  lemma {:induction false} MethodsStage(c: Context, t: seq<byte>)
    requires InBounds(c) && c.state == Methods && c.arg0 == 0
    ensures var n := c.arg1; var m := if n == 0 then 1 else n;
            if |t| < m then Parse(c, t).event == Ok
            else Parse(c, t) == Outcome(c.(methods := c.methods + MethodBits(t[..n]), arg0 := n), AuthSelect, t[m..])
  {
    var n := c.arg1;
    if |t| < (if n == 0 then 1 else n) {
      MethodsShort(c, t);
    } else if n > 0 {
      FieldOf(t, n);
      MethodsRead(c, t[..n], t[n..]);
    } else {
      assert c.methods + MethodBits([]) == c.methods;
    }
  }

  lemma {:induction false} GreetingJoined(ms: seq<byte>, j: byte, rest: seq<byte>)
    requires |ms| <= 255
    ensures GreetingFrame(ms, j) + rest == [5] + ([|ms|] + (Padded(ms, j) + rest))
  {
  }

  // The state after a greeting.
  function Greeted(c: Context, ms: seq<byte>): Context {
    c.(state := Methods, methods := c.methods + MethodBits(ms), arg0 := |ms|, arg1 := |ms|)
  }

  lemma {:induction false} GreetingTaken(c: Context, ms: seq<byte>, j: byte, rest: seq<byte>)
    requires InBounds(c) && c.state == Version && |ms| <= 255
    ensures Parse(c, GreetingFrame(ms, j) + rest) == Outcome(Greeted(c, ms), AuthSelect, rest)
  {
    var t := Padded(ms, j) + rest;
    var d := c.(state := Methods, arg0 := 0, arg1 := |ms|);
    GreetingJoined(ms, j, rest);
    Quiet(c, 5, c.(state := NMethods), [|ms|] + t);
    Quiet(c.(state := NMethods), |ms|, d, t);
    FieldAhead(ms, j, rest);
    MethodsStage(d, t);
  }

  // A greeting is accepted exactly if it is one, and refused exactly for its version.
  lemma {:induction false} GreetingExactly(c: Context, data: seq<byte>)
    requires InBounds(c) && c.state == Version
    ensures var o := Parse(c, data);
            && (o.event == AuthSelect <==> exists ms, j, rest :: |ms| <= 255 && data == GreetingFrame(ms, j) + rest)
            && (o.event == BadVersion <==> data != [] && data[0] != 5)
            && (o.event == BadVersion ==> o == Outcome(c, BadVersion, data[1..]))
            && (o.event == Ok || o.event == AuthSelect || o.event == BadVersion)
  {
    if data != [] {
      assert data == [data[0]] + data[1..];
      One(c, data[0], data[1..]);
      if data[0] == 5 && |data| >= 2 {
        var n, t := data[1], data[2..];
        var d := c.(state := Methods, arg0 := 0, arg1 := n);
        assert data[1..] == [n] + t;
        Quiet(c.(state := NMethods), n, d, t);
        MethodsStage(d, t);
        if Parse(c, data).event == AuthSelect {
          var ms, j, rest := FieldTaken(t, n);
          GreetingJoined(ms, j, rest);
        }
      }
    }
    forall ms, j, rest | |ms| <= 255 && data == GreetingFrame(ms, j) + rest
      ensures Parse(c, data).event == AuthSelect
    {
      GreetingTaken(c, ms, j, rest);
    }
  }

  // User name and password.

  function LoginFrame(user: seq<byte>, ju: byte, pass: seq<byte>, jp: byte): seq<byte>
    requires |user| <= 255 && |pass| <= 255
  {
    [1, |user|] + LoginTail(user, ju, pass, jp)
  }

  function LoginTail(user: seq<byte>, ju: byte, pass: seq<byte>, jp: byte): seq<byte>
    requires |pass| <= 255
  {
    Padded(user, ju) + ([|pass|] + Padded(pass, jp))
  }

  lemma {:induction false} UserNameShort(c: Context, t: seq<byte>)
    requires InBounds(c) && c.state == PwUserName && (t == [] || c.arg0 + |t| < c.userlen)
    ensures Parse(c, t).event == Ok
    decreases |t|
  {
    if t != [] {
      UserNameStep(c, t[0]);
      UserNameShort(UserNamePart(c, t[0]), t[1..]);
    }
  }

  lemma {:induction false} UserNameStage(c: Context, t: seq<byte>)
    requires InBounds(c) && c.state == PwUserName && c.arg0 == 0
    ensures var n := c.userlen; var m := if n == 0 then 1 else n;
            if |t| < m then Parse(c, t).event == Ok
            else var d := UserNameDone(c, Filled(c.username, t[..n])); InBounds(d) && Parse(c, t) == Parse(d, t[m..])
  {
    var n := c.userlen;
    if |t| < (if n == 0 then 1 else n) {
      UserNameShort(c, t);
    } else {
      FieldOf(t, n);
      WrittenAll(c.username, t[..n]);
      if n > 0 {
        UserNameReads(c, t[..n]);
        ReadsParse(c, t[..n], UserNameDone(c, Filled(c.username, t[..n])), t[n..]);
      } else {
        assert c.username[0 := 0] == Filled(c.username, []);
      }
    }
  }

  lemma {:induction false} PassWordShort(c: Context, t: seq<byte>)
    requires InBounds(c) && c.state == PwPassword && (t == [] || c.arg0 + |t| < c.passlen)
    ensures Parse(c, t).event == Ok
    decreases |t|
  {
    if t != [] {
      PassWordStep(c, t[0]);
      PassWordShort(PassWordPart(c, t[0]), t[1..]);
    }
  }

  lemma {:induction false} PassWordStage(c: Context, t: seq<byte>)
    requires InBounds(c) && c.state == PwPassword && c.arg0 == 0
    ensures var n := c.passlen; var m := if n == 0 then 1 else n;
            if |t| < m then Parse(c, t).event == Ok
            else Parse(c, t) == Outcome(PassWordDone(c, Filled(c.password, t[..n])), AuthVerify, t[m..])
  {
    var n := c.passlen;
    if |t| < (if n == 0 then 1 else n) {
      PassWordShort(c, t);
    } else {
      FieldOf(t, n);
      WrittenAll(c.password, t[..n]);
      if n > 0 {
        PassWordRead(c, t[..n], t[n..]);
      } else {
        assert c.password[0 := 0] == Filled(c.password, []);
      }
    }
  }

  // The state after a login.
  function LoggedIn(c: Context, user: seq<byte>, pass: seq<byte>): Context
    requires InBounds(c) && |user| <= 255 && |pass| <= 255
  {
    c.(state := ReqVersion, arg0 := |pass|, userlen := |user|, passlen := |pass|,
       username := Filled(c.username, user), password := Filled(c.password, pass))
  }

  // From the length of the password on.
  lemma {:induction false} PassWordTail(c: Context, t: seq<byte>)
    requires InBounds(c) && c.state == PwPassLen
    ensures Parse(c, t).event == if t != [] && |t| > (if t[0] == 0 then 1 else t[0]) then AuthVerify else Ok
  {
    if t != [] {
      var d := c.(state := PwPassword, arg0 := 0, passlen := t[0]);
      assert t == [t[0]] + t[1..];
      Quiet(c, t[0], d, t[1..]);
      PassWordStage(d, t[1..]);
    }
  }

  // Everything from the length of the user name on.
  lemma {:induction false} NameTail(c: Context, t: seq<byte>)
    returns (user: seq<byte>, ju: byte, pass: seq<byte>, jp: byte, rest: seq<byte>)
    requires InBounds(c) && c.state == PwUserName && c.arg0 == 0
    ensures Parse(c, t).event == Ok || Parse(c, t).event == AuthVerify
    ensures |user| <= 255 && |pass| <= 255
    ensures Parse(c, t).event == AuthVerify ==> |user| == c.userlen && t == LoginTail(user, ju, pass, jp) + rest
  {
    user, ju, pass, jp, rest := [], 0, [], 0, [];
    var n := c.userlen;
    UserNameStage(c, t);
    if |t| >= (if n == 0 then 1 else n) {
      var u;
      user, ju, u := FieldTaken(t, n);
      PassWordTail(UserNameDone(c, Filled(c.username, user)), u);
      if Parse(c, t).event == AuthVerify {
        pass, jp, rest := FieldTaken(u[1..], u[0]);
        TailJoined(user, ju, pass, jp, rest);
        assert u == [u[0]] + u[1..];
      }
    }
  }

  lemma {:induction false} TailJoined(user: seq<byte>, ju: byte, pass: seq<byte>, jp: byte, rest: seq<byte>)
    requires |user| <= 255 && |pass| <= 255
    ensures LoginTail(user, ju, pass, jp) + rest == Padded(user, ju) + ([|pass|] + (Padded(pass, jp) + rest))
    ensures LoginFrame(user, ju, pass, jp) + rest == [1] + ([|user|] + (LoginTail(user, ju, pass, jp) + rest))
  {
  }

  lemma {:induction false} LoginTaken(c: Context, user: seq<byte>, ju: byte, pass: seq<byte>, jp: byte, rest: seq<byte>)
    requires InBounds(c) && c.state == PwVersion && |user| <= 255 && |pass| <= 255
    ensures Parse(c, LoginFrame(user, ju, pass, jp) + rest) == Outcome(LoggedIn(c, user, pass), AuthVerify, rest)
  {
    var v := Padded(pass, jp) + rest;
    var u := [|pass|] + v;
    TailJoined(user, ju, pass, jp, rest);
    NameLengthRead(c, |user|, Padded(user, ju) + u);
    FieldAhead(user, ju, u);
    UserNameStage(c.(state := PwUserName, arg0 := 0, userlen := |user|), Padded(user, ju) + u);
    PassTaken(Named(c, user), pass, jp, rest);
  }

  lemma {:induction false} PassTaken(c: Context, pass: seq<byte>, jp: byte, rest: seq<byte>)
    requires InBounds(c) && c.state == PwPassLen && |pass| <= 255
    ensures Parse(c, [|pass|] + (Padded(pass, jp) + rest))
         == Outcome(c.(state := ReqVersion, arg0 := |pass|, passlen := |pass|, password := Filled(c.password, pass)),
                    AuthVerify, rest)
  {
    var v := Padded(pass, jp) + rest;
    var d := c.(state := PwPassword, arg0 := 0, passlen := |pass|);
    Quiet(c, |pass|, d, v);
    FieldAhead(pass, jp, rest);
    PassWordStage(d, v);
  }

  // A login is accepted exactly if it is one, and refused exactly for its version.
  lemma {:induction false} LoginExactly(c: Context, data: seq<byte>)
    requires InBounds(c) && c.state == PwVersion
    ensures var o := Parse(c, data);
            && (o.event == AuthVerify <==> IsLogin(data))
            && (o.event == BadVersion <==> data != [] && data[0] != 1)
            && (o.event == BadVersion ==> o == Outcome(c, BadVersion, data[1..]))
            && (o.event == Ok || o.event == AuthVerify || o.event == BadVersion)
  {
    if |data| >= 2 && data[0] == 1 {
      var n, t := data[1], data[2..];
      assert data == [1] + ([n] + t);
      NameLengthRead(c, n, t);
      var user, ju, pass, jp, rest := NameTail(c.(state := PwUserName, arg0 := 0, userlen := n), t);
      TailJoined(user, ju, pass, jp, rest);
    }
    forall user, ju, pass, jp, rest | |user| <= 255 && |pass| <= 255 && data == LoginFrame(user, ju, pass, jp) + rest
      ensures Parse(c, data).event == AuthVerify
    {
      LoginTaken(c, user, ju, pass, jp, rest);
    }
  }

  ghost predicate IsLogin(data: seq<byte>) {
    exists user, ju, pass, jp, rest ::
      |user| <= 255 && |pass| <= 255 && data == LoginFrame(user, ju, pass, jp) + rest
  }

  // Requests.

  function PortBytes(port: nat): seq<byte>
    requires port <= 0xffff
  {
    [port / 256, port % 256]
  }

  // r is the reserved byte, which the parser skips.
  function RequestFrame(q: Request, r: byte, j: byte): seq<byte>
    requires GoodRequest(q)
  {
    [5, CmdByte(q), r] + (Kind(q) + (Padded(q.addr, j) + PortBytes(q.port)))
  }

  ghost predicate IsRequest(data: seq<byte>) {
    exists q, r, j, rest :: GoodRequest(q) && data == RequestFrame(q, r, j) + rest
  }

  lemma {:induction false} AddressShort(c: Context, t: seq<byte>)
    requires InBounds(c) && c.state == ReqDaddr && (t == [] || c.arg0 + |t| < c.arg1)
    ensures Parse(c, t).event == Ok
    decreases |t|
  {
    if t != [] {
      AddressStep(c, t[0]);
      AddressShort(AddressPart(c, t[0]), t[1..]);
    }
  }

  lemma {:induction false} AddressStage(c: Context, t: seq<byte>)
    requires InBounds(c) && c.state == ReqDaddr && c.arg0 == 0
    ensures var n := c.arg1; var m := if n == 0 then 1 else n;
            if |t| < m then Parse(c, t).event == Ok
            else var d := AddressDone(c, Filled(c.daddr, t[..n])); InBounds(d) && Parse(c, t) == Parse(d, t[m..])
  {
    var n := c.arg1;
    if |t| < (if n == 0 then 1 else n) {
      AddressShort(c, t);
    } else {
      FieldOf(t, n);
      WrittenAll(c.daddr, t[..n]);
      if n > 0 {
        AddressReads(c, t[..n]);
        ReadsParse(c, t[..n], AddressDone(c, Filled(c.daddr, t[..n])), t[n..]);
      } else {
        assert c.daddr[0 := 0] == Filled(c.daddr, []);
      }
    }
  }

  lemma {:induction false} PortStage(c: Context, t: seq<byte>)
    requires InBounds(c) && c.state == ReqDport0
    ensures if |t| < 2 then Parse(c, t).event == Ok
            else Parse(c, t) == Outcome(c.(dport := PortOf(t[0], t[1]), state := Dead), ExecCmd, t[2..])
  {
    if t != [] {
      assert t == [t[0]] + t[1..];
      LastByte(c, t[0], t[1..]);
    }
  }

  function PortOf(hi: byte, lo: byte): (port: nat)
    ensures port <= 0xffff && PortBytes(port) == [hi, lo]
  {
    hi as int * 256 + lo as int
  }

  lemma {:induction false} PartsJoined(a: seq<byte>, b: seq<byte>, c: seq<byte>)
    ensures a + (b + c) == a + b + c
  {
  }

  // From the address on.
  lemma {:induction false} AddressTail(c: Context, t: seq<byte>)
    returns (addr: seq<byte>, j: byte, port: nat, rest: seq<byte>)
    requires InBounds(c) && c.state == ReqDaddr && c.arg0 == 0
    ensures Parse(c, t).event == Ok || Parse(c, t).event == ExecCmd
    ensures port <= 0xffff
    ensures Parse(c, t).event == ExecCmd ==> |addr| == c.arg1 && t == Padded(addr, j) + PortBytes(port) + rest
  {
    addr, j, port, rest := [], 0, 0, [];
    AddressStage(c, t);
    if |t| >= (if c.arg1 == 0 then 1 else c.arg1) {
      var u;
      addr, j, u := FieldTaken(t, c.arg1);
      port, rest := PortTail(AddressDone(c, Filled(c.daddr, addr)), u);
      PartsJoined(Padded(addr, j), PortBytes(port), rest);
    }
  }

  lemma {:induction false} PortTail(c: Context, u: seq<byte>) returns (port: nat, rest: seq<byte>)
    requires InBounds(c) && c.state == ReqDport0
    ensures port <= 0xffff && (Parse(c, u).event == Ok || Parse(c, u).event == ExecCmd)
    ensures Parse(c, u).event == ExecCmd ==> u == PortBytes(port) + rest
  {
    port, rest := 0, [];
    PortStage(c, u);
    if |u| >= 2 {
      port, rest := PortOf(u[0], u[1]), u[2..];
    }
  }

  lemma {:induction false} AddressTaken(c: Context, addr: seq<byte>, j: byte, port: nat, rest: seq<byte>)
    requires InBounds(c) && c.state == ReqDaddr && c.arg0 == 0 && c.arg1 == |addr| && port <= 0xffff
    ensures Parse(c, Padded(addr, j) + (PortBytes(port) + rest))
         == Outcome(AddressDone(c, Filled(c.daddr, addr)).(dport := port, state := Dead), ExecCmd, rest)
  {
    var u := PortBytes(port) + rest;
    FieldAhead(addr, j, u);
    AddressStage(c, Padded(addr, j) + u);
    PortStage(AddressDone(c, Filled(c.daddr, addr)), u);
  }

  lemma {:induction false} FrameJoined(q: Request, r: byte, j: byte, rest: seq<byte>)
    requires GoodRequest(q)
    ensures RequestFrame(q, r, j) + rest
         == [5, CmdByte(q), r] + (Kind(q) + (Padded(q.addr, j) + (PortBytes(q.port) + rest)))
    ensures RequestFrame(q, r, j) + rest
         == [5, CmdByte(q), r] + (Kind(q) + (Padded(q.addr, j) + PortBytes(q.port) + rest))
  {
  }

  lemma {:induction false} RequestTaken(c: Context, q: Request, r: byte, j: byte, rest: seq<byte>)
    requires InBounds(c) && c.state == ReqVersion && GoodRequest(q)
    ensures Parse(c, RequestFrame(q, r, j) + rest) == Outcome(Holding(c, q), ExecCmd, rest)
  {
    var t := Padded(q.addr, j) + (PortBytes(q.port) + rest);
    FrameJoined(q, r, j, rest);
    HeaderRead(c, q, r, t);
    var d := c.(state := ReqDaddr, cmd := q.cmd, atyp := q.atyp, arg0 := 0, arg1 := |q.addr|);
    AddressTaken(d, q.addr, j, q.port, rest);
  }

  // Command and reserved byte.
  lemma {:induction false} CommandCases(c: Context, u: seq<byte>)
    requires InBounds(c) && c.state == ReqCmd
    ensures var o := Parse(c, u);
            if u == [] then o.event == Ok
            else if u[0] != 1 && u[0] != 3 then o == Outcome(c, BadCmd, u[1..])
            else if |u| == 1 then o.event == Ok
            else o == Parse(c.(state := ReqAtyp, cmd := if u[0] == 1 then TcpConnect else UdpAssoc), u[2..])
  {
    if u != [] {
      var v := u[1..];
      assert u == [u[0]] + v;
      if u[0] == 1 || u[0] == 3 {
        var e := c.(state := ReqReserved, cmd := if u[0] == 1 then TcpConnect else UdpAssoc);
        Quiet(c, u[0], e, v);
        if v != [] {
          assert v == [v[0]] + v[1..];
          Quiet(e, v[0], e.(state := ReqAtyp), v[1..]);
        }
      } else {
        One(c, u[0], v);
      }
    }
  }

  // The version before them.
  lemma {:induction false} HeaderCases(c: Context, data: seq<byte>)
    requires InBounds(c) && c.state == ReqVersion
    ensures var o := Parse(c, data);
            if data == [] then o.event == Ok
            else if data[0] != 5 then o == Outcome(c, BadVersion, data[1..])
            else o == Parse(c.(state := ReqCmd), data[1..])
  {
    if data != [] {
      assert data == [data[0]] + data[1..];
      One(c, data[0], data[1..]);
    }
  }

  lemma {:induction false} HostCase(c: Context, u: seq<byte>)
    requires InBounds(c) && c.state == ReqAtypHost
    ensures var o := Parse(c, u);
            if u == [] then o.event == Ok else o == Parse(c.(state := ReqDaddr, arg1 := u[0]), u[1..])
  {
    if u != [] {
      assert u == [u[0]] + u[1..];
      Quiet(c, u[0], c.(state := ReqDaddr, arg1 := u[0]), u[1..]);
    }
  }

  // Type of the address and length of a host name.
  lemma {:induction false} KindCases(c: Context, t: seq<byte>)
    requires InBounds(c) && c.state == ReqAtyp
    ensures var o := Parse(c, t);
            var d := c.(state := ReqDaddr, arg0 := 0);
            if t == [] then o.event == Ok
            else if t[0] == 1 then o == Parse(d.(atyp := Ipv4, arg1 := 4), t[1..])
            else if t[0] == 4 then o == Parse(d.(atyp := Ipv6, arg1 := 16), t[1..])
            else if t[0] != 3 then o == Outcome(c.(arg0 := 0), BadAtyp, t[1..])
            else if |t| == 1 then o.event == Ok
            else o == Parse(d.(atyp := Host, arg1 := t[1]), t[2..])
  {
    if t != [] {
      var d := c.(state := ReqDaddr, arg0 := 0);
      assert t == [t[0]] + t[1..];
      if t[0] == 1 {
        Quiet(c, t[0], d.(atyp := Ipv4, arg1 := 4), t[1..]);
      } else if t[0] == 4 {
        Quiet(c, t[0], d.(atyp := Ipv6, arg1 := 16), t[1..]);
      } else if t[0] == 3 {
        var e := c.(state := ReqAtypHost, atyp := Host, arg0 := 0, arg1 := 0);
        Quiet(c, t[0], e, t[1..]);
        HostCase(e, t[1..]);
      } else {
        One(c, t[0], t[1..]);
      }
    }
  }

  // What follows the type of the address, and the length of a host name.
  lemma {:induction false} BodyTail(c: Context, d: Context, t: seq<byte>, n: nat)
    returns (q: Request, j: byte, rest: seq<byte>)
    requires InBounds(d) && d.state == ReqDaddr && d.arg0 == 0 && d.cmd == c.cmd != TcpBind
    requires InBounds(c) && 1 <= n <= |t| && Parse(c, t) == Parse(d, t[n..])
    requires match d.atyp
             case Ipv4 => d.arg1 == 4 && n == 1 && t[0] == 1
             case Ipv6 => d.arg1 == 16 && n == 1 && t[0] == 4
             case Host => n == 2 && t[0] == 3 && t[1] == d.arg1
    ensures GoodRequest(q) && q.cmd == c.cmd
    ensures var e := Parse(c, t).event; e == Ok || e == ExecCmd
    ensures Parse(c, t).event == ExecCmd ==> t == Kind(q) + (Padded(q.addr, j) + PortBytes(q.port) + rest)
  {
    q := Request(c.cmd, Host, [], 0);
    var addr, port;
    addr, j, port, rest := AddressTail(d, t[n..]);
    if Parse(c, t).event == ExecCmd {
      q := Request(c.cmd, d.atyp, addr, port);
      assert Kind(q) == t[..n] && t == t[..n] + t[n..];
    }
  }

  // From the type of the address on.
  lemma {:induction false} KindTail(c: Context, t: seq<byte>) returns (q: Request, j: byte, rest: seq<byte>)
    requires InBounds(c) && c.state == ReqAtyp && c.cmd != TcpBind
    ensures GoodRequest(q) && q.cmd == c.cmd
    ensures var e := Parse(c, t).event; e == Ok || e == ExecCmd || e == BadAtyp
    ensures Parse(c, t).event == BadAtyp <==> t != [] && t[0] != 1 && t[0] != 3 && t[0] != 4
    ensures Parse(c, t).event == BadAtyp ==> Parse(c, t).rest == t[1..]
    ensures Parse(c, t).event == ExecCmd ==> t == Kind(q) + (Padded(q.addr, j) + PortBytes(q.port) + rest)
  {
    q, j, rest := Request(c.cmd, Host, [], 0), 0, [];
    KindCases(c, t);
    var d := c.(state := ReqDaddr, arg0 := 0);
    if t != [] && t[0] == 1 {
      q, j, rest := BodyTail(c, d.(atyp := Ipv4, arg1 := 4), t, 1);
    } else if t != [] && t[0] == 4 {
      q, j, rest := BodyTail(c, d.(atyp := Ipv6, arg1 := 16), t, 1);
    } else if |t| >= 2 && t[0] == 3 {
      q, j, rest := BodyTail(c, d.(atyp := Host, arg1 := t[1]), t, 2);
    }
  }

  lemma {:induction false} Framed(data: seq<byte>, q: Request, j: byte, rest: seq<byte>)
    requires |data| >= 3 && data[0] == 5 && GoodRequest(q) && data[1] == CmdByte(q)
    requires data[3..] == Kind(q) + (Padded(q.addr, j) + PortBytes(q.port) + rest)
    ensures IsRequest(data)
  {
    FrameJoined(q, data[2], j, rest);
    assert data == [5, data[1], data[2]] + data[3..];
    assert data == RequestFrame(q, data[2], j) + rest;
  }

  lemma {:induction false} BodyCases(c: Context, data: seq<byte>)
    requires InBounds(c) && c.state == ReqVersion
    requires |data| >= 3 && data[0] == 5 && (data[1] == 1 || data[1] == 3)
    ensures var o := Parse(c, data);
            && (o.event == Ok || o.event == ExecCmd || o.event == BadAtyp)
            && (o.event == BadAtyp <==> |data| >= 4 && data[3] != 1 && data[3] != 3 && data[3] != 4)
            && (o.event == BadAtyp ==> o.rest == data[4..])
            && (o.event == ExecCmd ==> IsRequest(data))
  {
    assert |data| >= 4 ==> data[3..][1..] == data[4..];
    var d := c.(state := ReqAtyp, cmd := if data[1] == 1 then TcpConnect else UdpAssoc);
    HeaderCases(c, data);
    CommandCases(c.(state := ReqCmd), data[1..]);
    assert data[1..][2..] == data[3..];
    var q, j, rest := KindTail(d, data[3..]);
    if Parse(c, data).event == ExecCmd {
      Framed(data, q, j, rest);
    }
  }

  // A request is accepted exactly if it is one for CONNECT or UDP ASSOCIATE with a known type of address, and refused
  // exactly for the first of version, command and address type that is wrong, with what follows that byte unread.
  lemma {:induction false} RequestExactly(c: Context, data: seq<byte>)
    requires InBounds(c) && c.state == ReqVersion
    ensures var o := Parse(c, data);
            && (o.event == ExecCmd <==> IsRequest(data))
            && (o.event == BadVersion <==> data != [] && data[0] != 5)
            && (o.event == BadCmd <==> |data| >= 2 && data[0] == 5 && data[1] != 1 && data[1] != 3)
            && (o.event == BadAtyp <==>
                  && |data| >= 4 && data[0] == 5 && (data[1] == 1 || data[1] == 3)
                  && data[3] != 1 && data[3] != 3 && data[3] != 4)
            && (o.event == BadVersion ==> o == Outcome(c, BadVersion, data[1..]))
            && (o.event == BadCmd ==> o == Outcome(c.(state := ReqCmd), BadCmd, data[2..]))
            && (o.event == BadAtyp ==> o.rest == data[4..])
            && o.event != AuthSelect && o.event != AuthVerify
  {
    HeaderCases(c, data);
    if data != [] && data[0] == 5 {
      CommandCases(c.(state := ReqCmd), data[1..]);
    }
    if |data| >= 3 && data[0] == 5 && (data[1] == 1 || data[1] == 3) {
      BodyCases(c, data);
    }
    forall q, r, j, rest | GoodRequest(q) && data == RequestFrame(q, r, j) + rest
      ensures Parse(c, data).event == ExecCmd
    {
      RequestTaken(c, q, r, j, rest);
    }
  }

  // After the request the parser ignores everything.
  lemma {:induction false} DeadIgnores(c: Context, data: seq<byte>)
    requires InBounds(c) && c.state == Dead
    ensures Parse(c, data) == Outcome(c, Ok, [])
    decreases |data|
  {
    if data != [] {
      DeadIgnores(c, data[1..]);
    }
  }

  // A parse that ends without an event has read everything.
  lemma {:induction false} OkReadsAll(c: Context, data: seq<byte>)
    requires InBounds(c) && Parse(c, data).event == Ok
    ensures Parse(c, data).rest == []
    decreases |data|
  {
    if data != [] {
      OkReadsAll(Step(c, data[0]).ctx, data[1..]);
    }
  }
}

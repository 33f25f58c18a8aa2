module Socks5 {
  // The SOCKS5 stream parser of samples/socks5-proxy/s5.c: what one byte does, and what a stream of them means.

  type byte = x: int | 0 <= x < 256

  datatype S5State =
    | Version | NMethods | Methods
    | PwVersion | PwUserLen | PwUserName | PwPassLen | PwPassword
    | ReqVersion | ReqCmd | ReqReserved | ReqAtyp | ReqAtypHost | ReqDaddr | ReqDport0 | ReqDport1
    | Dead

  datatype Event = BadVersion | BadCmd | BadAtyp | Ok | AuthSelect | AuthVerify | ExecCmd

  datatype Cmd = TcpConnect | TcpBind | UdpAssoc

  datatype Atyp = Ipv4 | Ipv6 | Host

  // The bits of s5_auth_method, kept as a set.
  const S5_AUTH_NONE := 1
  const S5_AUTH_GSSAPI := 2
  const S5_AUTH_PASSWD := 4

  const BUFFER := 257
  const EINVAL := 22

  // s5_ctx
  datatype Context = Context(state: S5State, arg0: nat, arg1: nat, methods: set<nat>, cmd: Cmd, atyp: Atyp,
                             userlen: nat, passlen: nat, dport: nat,
                             username: seq<byte>, password: seq<byte>, daddr: seq<byte>)

  datatype Result = Result(ctx: Context, event: Event)

  datatype Outcome = Outcome(ctx: Context, event: Event, rest: seq<byte>)

  function Init(): Context {
    var empty := seq(BUFFER, i => 0);
    Context(Version, 0, 0, {}, TcpConnect, Ipv4, 0, 0, 0, empty, empty, empty)
  }

  function MethodBit(c: byte): set<nat> {
    if c == 0 then {S5_AUTH_NONE} else if c == 1 then {S5_AUTH_GSSAPI} else if c == 2 then {S5_AUTH_PASSWD} else {}
  }

  // The counters never run past the ends of the buffers.
  predicate InBounds(c: Context) {
    && |c.username| == |c.password| == |c.daddr| == BUFFER
    && c.userlen <= 255 && c.passlen <= 255 && c.dport <= 0xffff
    && match c.state
       case Methods => c.arg0 <= c.arg1 <= 255
       case PwUserName => c.arg0 <= c.userlen
       case PwPassword => c.arg0 <= c.passlen
       case ReqAtypHost => c.arg0 == 0
       case ReqDaddr => c.arg0 <= c.arg1 <= 255
       case ReqDport1 => c.dport % 256 == 0
       case _ => true
  }

  function GreetingStep(c: Context, b: byte): (r: Result)
    requires InBounds(c)
    ensures InBounds(r.ctx)
  {
    match c.state
    case Version => if b != 5 then Result(c, BadVersion) else Result(c.(state := NMethods), Ok)
    case NMethods => Result(c.(arg0 := 0, arg1 := b, state := Methods), Ok)
    case Methods =>
      var d := if c.arg0 < c.arg1 then c.(methods := c.methods + MethodBit(b), arg0 := c.arg0 + 1) else c;
      Result(d, if d.arg0 == d.arg1 then AuthSelect else Ok)
    case _ => Result(c, Ok)
  }

  function LoginStep(c: Context, b: byte): (r: Result)
    requires InBounds(c)
    ensures InBounds(r.ctx)
  {
    match c.state
    case PwVersion => if b != 1 then Result(c, BadVersion) else Result(c.(state := PwUserLen), Ok)
    case PwUserLen => Result(c.(arg0 := 0, userlen := b, state := PwUserName), Ok)
    case PwUserName =>
      var d := if c.arg0 < c.userlen then c.(username := c.username[c.arg0 := b], arg0 := c.arg0 + 1) else c;
      Result(if d.arg0 == d.userlen then d.(username := d.username[d.userlen := 0], state := PwPassLen) else d, Ok)
    case PwPassLen => Result(c.(arg0 := 0, passlen := b, state := PwPassword), Ok)
    case PwPassword =>
      var d := if c.arg0 < c.passlen then c.(password := c.password[c.arg0 := b], arg0 := c.arg0 + 1) else c;
      if d.arg0 == d.passlen then Result(d.(password := d.password[d.passlen := 0], state := ReqVersion), AuthVerify)
      else Result(d, Ok)
    case _ => Result(c, Ok)
  }

  function RequestStep(c: Context, b: byte): (r: Result)
    requires InBounds(c)
    ensures InBounds(r.ctx)
  {
    match c.state
    case ReqVersion => if b != 5 then Result(c, BadVersion) else Result(c.(state := ReqCmd), Ok)
    case ReqCmd =>
      if b == 1 then Result(c.(cmd := TcpConnect, state := ReqReserved), Ok)
      else if b == 3 then Result(c.(cmd := UdpAssoc, state := ReqReserved), Ok)
      else Result(c, BadCmd)
    case ReqReserved => Result(c.(state := ReqAtyp), Ok)
    case ReqAtyp =>
      var d := c.(arg0 := 0);
      if b == 1 then Result(d.(state := ReqDaddr, atyp := Ipv4, arg1 := 4), Ok)
      else if b == 3 then Result(d.(state := ReqAtypHost, atyp := Host, arg1 := 0), Ok)
      else if b == 4 then Result(d.(state := ReqDaddr, atyp := Ipv6, arg1 := 16), Ok)
      else Result(d, BadAtyp)
    case ReqAtypHost => Result(c.(arg1 := b, state := ReqDaddr), Ok)
    case ReqDaddr =>
      var d := if c.arg0 < c.arg1 then c.(daddr := c.daddr[c.arg0 := b], arg0 := c.arg0 + 1) else c;
      Result(if d.arg0 == d.arg1 then d.(daddr := d.daddr[d.arg1 := 0], state := ReqDport0) else d, Ok)
    case ReqDport0 => Result(c.(dport := b * 256, state := ReqDport1), Ok)
    case ReqDport1 => Result(c.(dport := c.dport + b, state := Dead), ExecCmd)
    case _ => Result(c, Ok)
  }

  predicate InGreeting(s: S5State) {
    s == Version || s == NMethods || s == Methods
  }

  predicate InLogin(s: S5State) {
    s == PwVersion || s == PwUserLen || s == PwUserName || s == PwPassLen || s == PwPassword
  }

  // One turn of the loop in s5_parse.
  function Step(c: Context, b: byte): (r: Result)
    requires InBounds(c)
    ensures InBounds(r.ctx)
  {
    if InGreeting(c.state) then GreetingStep(c, b) else if InLogin(c.state) then LoginStep(c, b) else RequestStep(c, b)
  }

  // s5_parse: bytes up to the first event, which leaves the rest unread.
  function Parse(c: Context, data: seq<byte>): (o: Outcome)
    requires InBounds(c)
    ensures InBounds(o.ctx)
    decreases |data|
  {
    if data == [] then Outcome(c, Ok, [])
    else
      var r := Step(c, data[0]);
      if r.event != Ok then Outcome(r.ctx, r.event, data[1..]) else Parse(r.ctx, data[1..])
  }

  // It does not matter how the stream is cut into pieces.
  lemma {:induction false} Chunks(c: Context, a: seq<byte>, b: seq<byte>)
    requires InBounds(c)
    ensures var o := Parse(c, a);
            Parse(c, a + b) == if o.event == Ok then Parse(o.ctx, b) else Outcome(o.ctx, o.event, o.rest + b)
    decreases |a|
  {
    if a == [] {
      assert a + b == b;
    } else {
      assert (a + b)[1..] == a[1..] + b;
      Chunks(Step(c, a[0]).ctx, a[1..], b);
    }
  }

  // One byte more.
  lemma {:induction false} One(c: Context, b: byte, rest: seq<byte>)
    requires InBounds(c)
    ensures var r := Step(c, b);
            Parse(c, [b] + rest) == if r.event != Ok then Outcome(r.ctx, r.event, rest) else Parse(r.ctx, rest)
  {
    assert ([b] + rest)[1..] == rest;
  }

  lemma {:induction false} Quiet(c: Context, b: byte, d: Context, rest: seq<byte>)
    requires InBounds(c) && Step(c, b) == Result(d, Ok)
    ensures InBounds(d) && Parse(c, [b] + rest) == Parse(d, rest)
  {
    One(c, b, rest);
  }

  // bytes written at the start of a buffer, and a NUL behind them
  function Filled(buffer: seq<byte>, bytes: seq<byte>): seq<byte>
    requires |bytes| < |buffer|
  {
    bytes + [0] + buffer[|bytes| + 1..]
  }

  function MethodBits(ms: seq<byte>): set<nat> {
    if ms == [] then {} else MethodBit(ms[0]) + MethodBits(ms[1..])
  }

  // Section 3 of RFC 1928: the client's greeting.
  function Greeting(ms: seq<byte>): seq<byte>
    requires |ms| <= 255
  {
    [5, |ms|] + ms
  }

  lemma {:induction false} MethodsRead(c: Context, ms: seq<byte>, rest: seq<byte>)
    requires InBounds(c) && c.state == Methods && ms != [] && c.arg0 + |ms| == c.arg1
    ensures Parse(c, ms + rest) == Outcome(c.(methods := c.methods + MethodBits(ms), arg0 := c.arg1), AuthSelect, rest)
    decreases |ms|
  {
    var d := Step(c, ms[0]).ctx;
    assert ms + rest == [ms[0]] + (ms[1..] + rest);
    One(c, ms[0], ms[1..] + rest);
    if |ms| == 1 {
      assert ms[1..] + rest == rest;
      assert MethodBits(ms) == MethodBit(ms[0]) + {};
    } else {
      MethodsRead(d, ms[1..], rest);
      assert c.methods + MethodBit(ms[0]) + MethodBits(ms[1..]) == c.methods + MethodBits(ms);
    }
  }

  // The greeting is read back, and nothing after it, unless the list is empty: then a byte too many is read.
  lemma {:induction false} GreetingRead(ms: seq<byte>, rest: seq<byte>)
    requires |ms| <= 255
    ensures Parse(Init(), Greeting(ms) + rest) ==
            if ms != [] then
              Outcome(Init().(state := Methods, methods := MethodBits(ms), arg0 := |ms|, arg1 := |ms|),
                      AuthSelect, rest)
            else if rest != [] then Outcome(Init().(state := Methods), AuthSelect, rest[1..])
            else Outcome(Init().(state := Methods), Ok, [])
  {
    var c := Init();
    var c1 := Step(c, 5).ctx;
    var c2 := Step(c1, |ms|).ctx;
    assert Greeting(ms) + rest == [5] + ([|ms|] + (ms + rest));
    One(c, 5, [|ms|] + (ms + rest));
    One(c1, |ms|, ms + rest);
    if ms != [] {
      MethodsRead(c2, ms, rest);
      assert c.methods + MethodBits(ms) == MethodBits(ms);
    } else {
      assert ms + rest == rest;
    }
  }

  // bytes written into a buffer from at on, and a NUL behind them
  function Written(buffer: seq<byte>, at: nat, bytes: seq<byte>): seq<byte>
    requires at + |bytes| < |buffer|
  {
    buffer[..at] + bytes + [0] + buffer[at + |bytes| + 1..]
  }

  lemma {:induction false} WrittenMore(buffer: seq<byte>, at: nat, bytes: seq<byte>)
    requires at + |bytes| < |buffer| && bytes != []
    ensures Written(buffer[at := bytes[0]], at + 1, bytes[1..]) == Written(buffer, at, bytes)
    ensures |bytes| == 1 ==> buffer[at := bytes[0]][at + 1 := 0] == Written(buffer, at, bytes)
  {
  }

  lemma {:induction false} WrittenAll(buffer: seq<byte>, bytes: seq<byte>)
    requires |bytes| < |buffer|
    ensures Written(buffer, 0, bytes) == Filled(buffer, bytes)
  {
  }

  // The bytes lead from c to d without an event.
  predicate Reads(c: Context, bytes: seq<byte>, d: Context)
    requires InBounds(c)
    decreases |bytes|
  {
    if bytes == [] then c == d
    else var r := Step(c, bytes[0]); r.event == Ok && Reads(r.ctx, bytes[1..], d)
  }

  lemma {:induction false} ReadsParse(c: Context, bytes: seq<byte>, d: Context, rest: seq<byte>)
    requires InBounds(c) && Reads(c, bytes, d)
    ensures InBounds(d) && Parse(c, bytes + rest) == Parse(d, rest)
    decreases |bytes|
  {
    if bytes == [] {
      assert bytes + rest == rest;
    } else {
      assert bytes + rest == [bytes[0]] + (bytes[1..] + rest);
      One(c, bytes[0], bytes[1..] + rest);
      ReadsParse(Step(c, bytes[0]).ctx, bytes[1..], d, rest);
    }
  }

  // The context once some bytes of a field are in its buffer ...
  function AddressPart(c: Context, b: byte): Context
    requires InBounds(c) && c.arg0 < BUFFER
  {
    c.(daddr := c.daddr[c.arg0 := b], arg0 := c.arg0 + 1)
  }

  function UserNamePart(c: Context, b: byte): Context
    requires InBounds(c) && c.arg0 < BUFFER
  {
    c.(username := c.username[c.arg0 := b], arg0 := c.arg0 + 1)
  }

  function PassWordPart(c: Context, b: byte): Context
    requires InBounds(c) && c.arg0 < BUFFER
  {
    c.(password := c.password[c.arg0 := b], arg0 := c.arg0 + 1)
  }

  // ... and once all of them are.
  function AddressDone(c: Context, daddr: seq<byte>): Context {
    c.(daddr := daddr, arg0 := c.arg1, state := ReqDport0)
  }

  function UserNameDone(c: Context, username: seq<byte>): Context {
    c.(username := username, arg0 := c.userlen, state := PwPassLen)
  }

  function PassWordDone(c: Context, password: seq<byte>): Context {
    c.(password := password, arg0 := c.passlen, state := ReqVersion)
  }

  lemma {:induction false} AddressStep(c: Context, b: byte)
    requires InBounds(c) && c.state == ReqDaddr && c.arg0 < c.arg1
    ensures Step(c, b) ==
            if c.arg0 + 1 == c.arg1 then Result(AddressDone(c, c.daddr[c.arg0 := b][c.arg1 := 0]), Ok)
            else Result(AddressPart(c, b), Ok)
  {
  }

  lemma {:induction false} UserNameStep(c: Context, b: byte)
    requires InBounds(c) && c.state == PwUserName && c.arg0 < c.userlen
    ensures Step(c, b) ==
            if c.arg0 + 1 == c.userlen then Result(UserNameDone(c, c.username[c.arg0 := b][c.userlen := 0]), Ok)
            else Result(UserNamePart(c, b), Ok)
  {
  }

  lemma {:induction false} PassWordStep(c: Context, b: byte)
    requires InBounds(c) && c.state == PwPassword && c.arg0 < c.passlen
    ensures Step(c, b) ==
            if c.arg0 + 1 == c.passlen then Result(PassWordDone(c, c.password[c.arg0 := b][c.passlen := 0]), AuthVerify)
            else Result(PassWordPart(c, b), Ok)
  {
  }

  lemma {:induction false} AddressReads(c: Context, bytes: seq<byte>)
    requires InBounds(c) && c.state == ReqDaddr && bytes != [] && c.arg0 + |bytes| == c.arg1
    ensures Reads(c, bytes, AddressDone(c, Written(c.daddr, c.arg0, bytes)))
    decreases |bytes|
  {
    var tail := bytes[1..];
    WrittenMore(c.daddr, c.arg0, bytes);
    AddressStep(c, bytes[0]);
    if |bytes| > 1 {
      AddressReads(AddressPart(c, bytes[0]), tail);
    }
  }

  lemma {:induction false} UserNameReads(c: Context, bytes: seq<byte>)
    requires InBounds(c) && c.state == PwUserName && bytes != [] && c.arg0 + |bytes| == c.userlen
    ensures Reads(c, bytes, UserNameDone(c, Written(c.username, c.arg0, bytes)))
    decreases |bytes|
  {
    var tail := bytes[1..];
    WrittenMore(c.username, c.arg0, bytes);
    UserNameStep(c, bytes[0]);
    if |bytes| > 1 {
      UserNameReads(UserNamePart(c, bytes[0]), tail);
    }
  }

  lemma {:induction false} PassWordRead(c: Context, bytes: seq<byte>, rest: seq<byte>)
    requires InBounds(c) && c.state == PwPassword && bytes != [] && c.arg0 + |bytes| == c.passlen
    ensures Parse(c, bytes + rest) == Outcome(PassWordDone(c, Written(c.password, c.arg0, bytes)), AuthVerify, rest)
    decreases |bytes|
  {
    var tail := bytes[1..];
    WrittenMore(c.password, c.arg0, bytes);
    PassWordStep(c, bytes[0]);
    assert bytes + rest == [bytes[0]] + (tail + rest);
    One(c, bytes[0], tail + rest);
    if |bytes| == 1 {
      assert tail + rest == rest;
    } else {
      PassWordRead(PassWordPart(c, bytes[0]), tail, rest);
    }
  }

  // Section 2 of RFC 1929: user name and password, each of one to 255 bytes.
  function Login(user: seq<byte>, pass: seq<byte>): seq<byte>
    requires |user| <= 255 && |pass| <= 255
  {
    [1, |user|] + user + ([|pass|] + pass)
  }

  // The context between user name and password.
  function Named(c: Context, user: seq<byte>): Context
    requires InBounds(c) && |user| <= 255
  {
    c.(state := PwPassLen, arg0 := |user|, userlen := |user|, username := Filled(c.username, user))
  }

  lemma {:induction false} LoginParts(user: seq<byte>, pass: seq<byte>, rest: seq<byte>)
    requires |user| <= 255 && |pass| <= 255
    ensures Login(user, pass) + rest == [1] + ([|user|] + (user + ([|pass|] + (pass + rest))))
  {
  }

  lemma {:induction false} NameLengthRead(c: Context, n: byte, t: seq<byte>)
    requires InBounds(c) && c.state == PwVersion
    ensures var d := c.(state := PwUserName, arg0 := 0, userlen := n);
            InBounds(d) && Parse(c, [1] + ([n] + t)) == Parse(d, t)
  {
    Quiet(c, 1, c.(state := PwUserLen), [n] + t);
    Quiet(c.(state := PwUserLen), n, c.(state := PwUserName, arg0 := 0, userlen := n), t);
  }

  lemma {:induction false} UserNameRead(c: Context, user: seq<byte>, pass: seq<byte>, rest: seq<byte>)
    requires InBounds(c) && c.state == PwVersion && 1 <= |user| <= 255 && |pass| <= 255
    ensures InBounds(Named(c, user))
            && Parse(c, Login(user, pass) + rest) == Parse(Named(c, user), [|pass|] + (pass + rest))
  {
    var t := [|pass|] + (pass + rest);
    LoginParts(user, pass, rest);
    var c2 := c.(state := PwUserName, arg0 := 0, userlen := |user|);
    NameLengthRead(c, |user|, user + t);
    UserNameReads(c2, user);
    WrittenAll(c.username, user);
    ReadsParse(c2, user, Named(c, user), t);
  }

  lemma {:induction false} LoginRead(c: Context, user: seq<byte>, pass: seq<byte>, rest: seq<byte>)
    requires InBounds(c) && c.state == PwVersion && 1 <= |user| <= 255 && 1 <= |pass| <= 255
    ensures Parse(c, Login(user, pass) + rest)
         == Outcome(c.(state := ReqVersion, arg0 := |pass|, userlen := |user|, passlen := |pass|,
                       username := Filled(c.username, user), password := Filled(c.password, pass)), AuthVerify, rest)
  {
    UserNameRead(c, user, pass, rest);
    var d := Named(c, user);
    One(d, |pass|, pass + rest);
    PassWordRead(Step(d, |pass|).ctx, pass, rest);
    WrittenAll(c.password, pass);
  }

  // With an empty password the parser takes the byte after the login for the end of it.
  lemma {:induction false} EmptyPassWordRead(c: Context, user: seq<byte>, rest: seq<byte>)
    requires InBounds(c) && c.state == PwVersion && 1 <= |user| <= 255
    ensures var d := Named(c, user).(arg0 := 0, passlen := 0);
            Parse(c, Login(user, []) + rest) ==
            if rest == [] then Outcome(d.(state := PwPassword), Ok, [])
            else Outcome(d.(state := ReqVersion, password := Filled(c.password, [])), AuthVerify, rest[1..])
  {
    UserNameRead(c, user, [], rest);
    assert [] + rest == rest;
    EmptyPassWordEnd(Named(c, user), rest);
  }

  lemma {:induction false} EmptyPassWordEnd(c: Context, rest: seq<byte>)
    requires InBounds(c) && c.state == PwPassLen
    ensures var d := c.(arg0 := 0, passlen := 0);
            Parse(c, [0] + rest) ==
            if rest == [] then Outcome(d.(state := PwPassword), Ok, [])
            else Outcome(d.(state := ReqVersion, password := Filled(c.password, [])), AuthVerify, rest[1..])
  {
    var d := c.(state := PwPassword, arg0 := 0, passlen := 0);
    Quiet(c, 0, d, rest);
    if rest != [] {
      assert rest == [rest[0]] + rest[1..];
      One(d, rest[0], rest[1..]);
      assert c.password[0 := 0] == Filled(c.password, []);
    }
  }

  // With an empty user name it is one byte ahead: it drops the length of the password, and what follows that byte
  // is read as the length.
  lemma {:induction false} EmptyUserNameRead(c: Context, pass: seq<byte>, rest: seq<byte>)
    requires InBounds(c) && c.state == PwVersion && |pass| <= 255
    ensures var d := c.(arg0 := 0, userlen := 0, username := Filled(c.username, []));
            var t := pass + rest;
            Parse(c, Login([], pass) + rest) ==
            if t == [] then Outcome(d.(state := PwPassLen), Ok, [])
            else Parse(d.(state := PwPassword, passlen := t[0]), t[1..])
  {
    var t := pass + rest;
    LoginParts([], pass, rest);
    assert [] + ([|pass|] + t) == [|pass|] + t;
    NameLengthRead(c, 0, [|pass|] + t);
    EmptyUserNameEnd(c.(state := PwUserName, arg0 := 0, userlen := 0), |pass|, t);
  }

  lemma {:induction false} EmptyUserNameEnd(c: Context, b: byte, t: seq<byte>)
    requires InBounds(c) && c.state == PwUserName && c.arg0 == c.userlen == 0
    ensures var d := c.(username := Filled(c.username, []));
            Parse(c, [b] + t) ==
            if t == [] then Outcome(d.(state := PwPassLen), Ok, [])
            else Parse(d.(state := PwPassword, passlen := t[0]), t[1..])
  {
    assert c.username[0 := 0] == Filled(c.username, []);
    var d := c.(state := PwPassLen, username := Filled(c.username, []));
    Quiet(c, b, d, t);
    if t != [] {
      assert t == [t[0]] + t[1..];
      Quiet(d, t[0], d.(state := PwPassword, passlen := t[0]), t[1..]);
    }
  }

  // How many bytes the end of a login takes: what is missing from the password, but at least one.
  lemma {:induction false} VerifyTakes(c: Context, data: seq<byte>)
    requires InBounds(c) && c.state == PwPassword && Parse(c, data).event == AuthVerify
    ensures var o := Parse(c, data);
            && o.ctx.passlen == c.passlen
            && |data| == |o.rest| + if c.arg0 < c.passlen then c.passlen - c.arg0 else 1
    decreases |data|
  {
    if c.arg0 + 1 < c.passlen {
      PassWordStep(c, data[0]);
      VerifyTakes(PassWordPart(c, data[0]), data[1..]);
    }
  }

  // So a login is read back exactly when neither the user name nor the password is empty.
  lemma {:induction false} LoginExact(c: Context, user: seq<byte>, pass: seq<byte>, rest: seq<byte>)
    requires InBounds(c) && c.state == PwVersion && |user| <= 255 && |pass| <= 255
    ensures (user != [] && pass != []) <==>
            (Parse(c, Login(user, pass) + rest)
             == Outcome(c.(state := ReqVersion, arg0 := |pass|, userlen := |user|, passlen := |pass|,
                           username := Filled(c.username, user), password := Filled(c.password, pass)),
                        AuthVerify, rest))
  {
    if user == [] {
      EmptyUserNameRead(c, pass, rest);
      var t := pass + rest;
      var o := Parse(c, Login([], pass) + rest);
      if t != [] && o.event == AuthVerify {
        VerifyTakes(c.(state := PwPassword, arg0 := 0, userlen := 0, passlen := t[0],
                       username := Filled(c.username, [])), t[1..]);
      }
    } else if pass == [] {
      EmptyPassWordRead(c, user, rest);
    } else {
      LoginRead(c, user, pass, rest);
    }
  }

  // Section 4 of RFC 1928: CONNECT and UDP ASSOCIATE requests.
  datatype Request = Request(cmd: Cmd, atyp: Atyp, addr: seq<byte>, port: nat)

  predicate GoodRequest(q: Request) {
    && q.cmd != TcpBind && q.port <= 0xffff
    && match q.atyp
       case Ipv4 => |q.addr| == 4
       case Ipv6 => |q.addr| == 16
       case Host => |q.addr| <= 255
  }

  // ATYP, and the length of a host name.
  function Kind(q: Request): seq<byte>
    requires GoodRequest(q)
  {
    match q.atyp
    case Ipv4 => [1]
    case Ipv6 => [4]
    case Host => [3, |q.addr|]
  }

  function CmdByte(q: Request): byte {
    if q.cmd == TcpConnect then 1 else 3
  }

  function Encoded(q: Request): seq<byte>
    requires GoodRequest(q)
  {
    [5, CmdByte(q), 0] + Kind(q) + q.addr + [q.port / 256, q.port % 256]
  }

  // The context with the fields of a request in it.
  function Holding(c: Context, q: Request): Context
    requires InBounds(c) && GoodRequest(q)
  {
    c.(state := Dead, cmd := q.cmd, atyp := q.atyp, arg0 := |q.addr|, arg1 := |q.addr|, dport := q.port,
       daddr := Filled(c.daddr, q.addr))
  }

  lemma {:induction false} KindRead(c: Context, q: Request, t: seq<byte>)
    requires InBounds(c) && c.state == ReqAtyp && GoodRequest(q)
    ensures var d := c.(state := ReqDaddr, atyp := q.atyp, arg0 := 0, arg1 := |q.addr|);
            InBounds(d) && Parse(c, Kind(q) + t) == Parse(d, t)
  {
    if q.atyp == Host {
      var c1 := c.(state := ReqAtypHost, atyp := Host, arg0 := 0, arg1 := 0);
      assert Kind(q) + t == [3] + ([|q.addr|] + t);
      Quiet(c, 3, c1, [|q.addr|] + t);
      Quiet(c1, |q.addr|, c1.(state := ReqDaddr, arg1 := |q.addr|), t);
    } else {
      Quiet(c, Kind(q)[0], c.(state := ReqDaddr, atyp := q.atyp, arg0 := 0, arg1 := |q.addr|), t);
    }
  }

  // The fixed part of a request and the kind of its address.
  lemma {:induction false} HeaderRead(c: Context, q: Request, r: byte, t: seq<byte>)
    requires InBounds(c) && c.state == ReqVersion && GoodRequest(q)
    ensures var d := c.(state := ReqDaddr, cmd := q.cmd, atyp := q.atyp, arg0 := 0, arg1 := |q.addr|);
            InBounds(d) && Parse(c, [5, CmdByte(q), r] + (Kind(q) + t)) == Parse(d, t)
  {
    var b, k := CmdByte(q), Kind(q) + t;
    assert [5, b, r] + k == [5] + ([b] + ([r] + k));
    var c1 := c.(state := ReqCmd);
    var c2 := c1.(state := ReqReserved, cmd := q.cmd);
    Quiet(c, 5, c1, [b] + ([r] + k));
    Quiet(c1, b, c2, [r] + k);
    Quiet(c2, r, c2.(state := ReqAtyp), k);
    KindRead(c2.(state := ReqAtyp), q, t);
  }

  lemma {:induction false} PortRead(c: Context, port: nat, rest: seq<byte>)
    requires InBounds(c) && c.state == ReqDport0 && port <= 0xffff
    ensures Parse(c, [port / 256, port % 256] + rest) == Outcome(c.(dport := port, state := Dead), ExecCmd, rest)
  {
    assert [port / 256, port % 256] + rest == [port / 256] + ([port % 256] + rest);
    var d := c.(dport := port / 256 * 256, state := ReqDport1);
    Quiet(c, port / 256, d, [port % 256] + rest);
    One(d, port % 256, rest);
  }

  lemma {:induction false} EncodedParts(q: Request, rest: seq<byte>)
    requires GoodRequest(q)
    ensures Encoded(q) + rest == [5, CmdByte(q), 0] + (Kind(q) + (q.addr + ([q.port / 256, q.port % 256] + rest)))
  {
  }

  // A request parses back to its fields, with what follows unread.
  lemma {:induction false} RequestRead(c: Context, q: Request, rest: seq<byte>)
    requires InBounds(c) && c.state == ReqVersion && GoodRequest(q) && q.addr != []
    ensures Parse(c, Encoded(q) + rest) == Outcome(Holding(c, q), ExecCmd, rest)
  {
    var p: seq<byte> := [q.port / 256, q.port % 256];
    EncodedParts(q, rest);
    HeaderRead(c, q, 0, q.addr + (p + rest));
    var d := c.(state := ReqDaddr, cmd := q.cmd, atyp := q.atyp, arg0 := 0, arg1 := |q.addr|);
    AddressReads(d, q.addr);
    WrittenAll(c.daddr, q.addr);
    var e := AddressDone(d, Filled(c.daddr, q.addr));
    ReadsParse(d, q.addr, e, p + rest);
    PortRead(e, q.port, rest);
  }

  // What the parser reads next, whatever comes: a request ...
  ghost predicate RequestNext(c: Context)
    requires InBounds(c)
  {
    forall q, rest :: GoodRequest(q) && q.addr != [] ==>
      Parse(c, Encoded(q) + rest) == Outcome(Holding(c, q), ExecCmd, rest)
  }

  // ... or a login and, behind it, a request.
  ghost predicate LoginNext(c: Context)
    requires InBounds(c)
  {
    forall user, pass, rest :: 1 <= |user| <= 255 && 1 <= |pass| <= 255 ==>
      var o := Parse(c, Login(user, pass) + rest);
      && o.event == AuthVerify && o.rest == rest && RequestNext(o.ctx)
      && o.ctx.username == Filled(c.username, user) && o.ctx.password == Filled(c.password, pass)
  }

  lemma {:induction false} RequestExpected(c: Context)
    requires InBounds(c) && c.state == ReqVersion
    ensures RequestNext(c)
  {
    forall q: Request, rest: seq<byte> | GoodRequest(q) && q.addr != []
      ensures Parse(c, Encoded(q) + rest) == Outcome(Holding(c, q), ExecCmd, rest)
    {
      RequestRead(c, q, rest);
    }
  }

  lemma {:induction false} LoginExpected(c: Context)
    requires InBounds(c) && c.state == PwVersion
    ensures LoginNext(c)
  {
    forall user: seq<byte>, pass: seq<byte>, rest: seq<byte> | 1 <= |user| <= 255 && 1 <= |pass| <= 255
      ensures var o := Parse(c, Login(user, pass) + rest);
              && o.event == AuthVerify && o.rest == rest && RequestNext(o.ctx)
              && o.ctx.username == Filled(c.username, user) && o.ctx.password == Filled(c.password, pass)
    {
      LoginRead(c, user, pass, rest);
      RequestExpected(Parse(c, Login(user, pass) + rest).ctx);
    }
  }

  // The two port bytes, the second of them perhaps still to come.
  lemma {:induction false} LastByte(c: Context, hi: byte, rest: seq<byte>)
    requires InBounds(c) && c.state == ReqDport0
    ensures Parse(c, [hi] + rest) ==
            if rest == [] then Outcome(c.(dport := hi * 256, state := ReqDport1), Ok, [])
            else Outcome(c.(dport := hi * 256 + rest[0], state := Dead), ExecCmd, rest[1..])
  {
    var d := c.(dport := hi * 256, state := ReqDport1);
    Quiet(c, hi, d, rest);
    if rest != [] {
      assert rest == [rest[0]] + rest[1..];
      One(d, rest[0], rest[1..]);
    }
  }

  // With an empty host name the parser is one byte ahead: it drops the first byte of the port and takes the byte
  // after the request for the last one.
  lemma {:induction false} EmptyHostRead(c: Context, q: Request, rest: seq<byte>)
    requires InBounds(c) && c.state == ReqVersion && GoodRequest(q) && q.addr == []
    ensures var d := Holding(c, q).(dport := q.port % 256 * 256);
            Parse(c, Encoded(q) + rest) ==
            if rest == [] then Outcome(d.(state := ReqDport1), Ok, [])
            else Outcome(d.(dport := d.dport + rest[0]), ExecCmd, rest[1..])
  {
    var hi: byte := q.port / 256;
    var lo: byte := q.port % 256;
    EncodedParts(q, rest);
    assert q.addr + ([hi, lo] + rest) == [hi] + ([lo] + rest);
    HeaderRead(c, q, 0, [hi] + ([lo] + rest));
    var d := c.(state := ReqDaddr, cmd := q.cmd, atyp := q.atyp, arg0 := 0, arg1 := 0);
    var e := d.(daddr := Filled(c.daddr, []), state := ReqDport0);
    assert c.daddr[0 := 0] == Filled(c.daddr, []);
    Quiet(d, hi, e, [lo] + rest);
    LastByte(e, lo, rest);
  }

  // So a request is read back exactly when its address is not empty.
  lemma {:induction false} RequestExact(c: Context, q: Request, rest: seq<byte>)
    requires InBounds(c) && c.state == ReqVersion && GoodRequest(q)
    ensures q.addr != [] <==> Parse(c, Encoded(q) + rest) == Outcome(Holding(c, q), ExecCmd, rest)
  {
    if q.addr != [] {
      RequestRead(c, q, rest);
    } else {
      EmptyHostRead(c, q, rest);
    }
  }

  lemma {:induction false} GreetingExact(ms: seq<byte>, rest: seq<byte>)
    requires |ms| <= 255
    ensures ms != [] <==>
            Parse(Init(), Greeting(ms) + rest)
            == Outcome(Init().(state := Methods, methods := MethodBits(ms), arg0 := |ms|, arg1 := |ms|),
                       AuthSelect, rest)
  {
    GreetingRead(ms, rest);
  }

  // A greeting without methods swallows the first byte of what follows it.
  lemma {:induction false} EmptyGreetingFails()
    ensures Parse(Init(), Greeting([]) + [5]) == Outcome(Init().(state := Methods), AuthSelect, [])
  {
    GreetingRead([], [5]);
  }
}

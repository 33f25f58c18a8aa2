module Socks5Parser {
  // s5_ctx as the parser keeps it, with its buffers filled in place.

  import opened Socks5

  class Ctx {
    var state: S5State
    var arg0: nat
    var arg1: nat
    var methods: set<nat>
    var cmd: Cmd
    var atyp: Atyp
    var userlen: nat
    var passlen: nat
    var dport: nat
    const username: array<byte>
    const password: array<byte>
    const daddr: array<byte>

    ghost function Value(): Context
      reads this, username, password, daddr
    {
      Context(state, arg0, arg1, methods, cmd, atyp, userlen, passlen, dport, username[..], password[..], daddr[..])
    }

    ghost predicate Valid()
      reads this, username, password, daddr
    {
      username != password && username != daddr && password != daddr && InBounds(Value())
    }

    // s5_init
    constructor ()
      ensures Valid() && Value() == Socks5.Init()
    {
      state, arg0, arg1, methods, cmd, atyp := Version, 0, 0, {}, TcpConnect, Ipv4;
      userlen, passlen, dport := 0, 0, 0;
      username := new byte[BUFFER](_ => 0);
      password := new byte[BUFFER](_ => 0);
      daddr := new byte[BUFFER](_ => 0);
      new;
      ghost var empty := seq(BUFFER, i => 0);
      assert username[..] == empty && password[..] == empty && daddr[..] == empty;
    }

    method FeedGreeting(c: byte) returns (err: Event)
      requires Valid() && InGreeting(state)
      modifies this
      ensures Valid() && Result(Value(), err) == Step(old(Value()), c)
    {
      err := Ok;
      if state == Version {
        if c != 5 {
          return BadVersion;
        }
        state := NMethods;
      } else if state == NMethods {
        arg0 := 0;
        arg1 := c;
        state := Methods;
      } else {
        if arg0 < arg1 {
          match c {
            case 0 => methods := methods + {S5_AUTH_NONE};
            case 1 => methods := methods + {S5_AUTH_GSSAPI};
            case 2 => methods := methods + {S5_AUTH_PASSWD};
            case _ =>
          }
          arg0 := arg0 + 1;
        }
        if arg0 == arg1 {
          err := AuthSelect;
        }
      }
    }

    method FeedLogin(c: byte) returns (err: Event)
      requires Valid() && InLogin(state)
      modifies this, username, password
      ensures Valid() && Result(Value(), err) == Step(old(Value()), c)
    {
      err := Ok;
      if state == PwVersion {
        if c != 1 {
          return BadVersion;
        }
        state := PwUserLen;
      } else if state == PwUserLen {
        arg0 := 0;
        userlen := c;
        state := PwUserName;
      } else if state == PwUserName {
        if arg0 < userlen {
          username[arg0] := c;
          arg0 := arg0 + 1;
        }
        if arg0 == userlen {
          username[userlen] := 0;
          state := PwPassLen;
        }
      } else if state == PwPassLen {
        arg0 := 0;
        passlen := c;
        state := PwPassword;
      } else {
        if arg0 < passlen {
          password[arg0] := c;
          arg0 := arg0 + 1;
        }
        if arg0 == passlen {
          password[passlen] := 0;
          state := ReqVersion;
          err := AuthVerify;
        }
      }
    }

    method FeedRequest(c: byte) returns (err: Event)
      requires Valid() && !InGreeting(state) && !InLogin(state)
      modifies this, daddr
      ensures Valid() && Result(Value(), err) == Step(old(Value()), c)
    {
      err := Ok;
      if state == ReqVersion {
        if c != 5 {
          return BadVersion;
        }
        state := ReqCmd;
      } else if state == ReqCmd {
        match c {
          case 1 => cmd := TcpConnect;
          case 3 => cmd := UdpAssoc;
          case _ => return BadCmd;
        }
        state := ReqReserved;
      } else if state == ReqReserved {
        state := ReqAtyp;
      } else if state == ReqAtyp {
        arg0 := 0;
        match c {
          case 1 => state, atyp, arg1 := ReqDaddr, Ipv4, 4;
          case 3 => state, atyp, arg1 := ReqAtypHost, Host, 0;
          case 4 => state, atyp, arg1 := ReqDaddr, Ipv6, 16;
          case _ => return BadAtyp;
        }
      } else if state == ReqAtypHost {
        arg1 := c;
        state := ReqDaddr;
      } else if state == ReqDaddr {
        if arg0 < arg1 {
          daddr[arg0] := c;
          arg0 := arg0 + 1;
        }
        if arg0 == arg1 {
          daddr[arg1] := 0;
          state := ReqDport0;
        }
      } else if state == ReqDport0 {
        dport := c * 256;
        state := ReqDport1;
      } else if state == ReqDport1 {
        dport := dport + c;
        state := Dead;
        err := ExecCmd;
      }
    }

    // s5_parse; i is how much of data has been consumed.
    method Parse(data: seq<byte>) returns (err: Event, i: nat)
      requires Valid()
      modifies this, username, password, daddr
      ensures Valid() && i <= |data|
      ensures Outcome(Value(), err, data[i..]) == Socks5.Parse(old(Value()), data)
    {
      i := 0;
      while i < |data|
        invariant Valid() && i <= |data|
        invariant Socks5.Parse(Value(), data[i..]) == Socks5.Parse(old(Value()), data)
      {
        var c := data[i];
        ghost var was := Value();
        assert data[i..][1..] == data[i + 1..];
        i := i + 1;
        if InGreeting(state) {
          err := FeedGreeting(c);
        } else if InLogin(state) {
          err := FeedLogin(c);
        } else {
          err := FeedRequest(c);
        }
        if err != Ok {
          return;
        }
      }
      err := Ok;
      assert data[i..] == [];
    }

    // s5_select_auth
    method SelectAuth(m: nat) returns (err: int)
      requires Valid()
      modifies `state
      ensures Valid() && Value() == old(Value()).(state := state)
      ensures err == if m == S5_AUTH_NONE || m == S5_AUTH_PASSWD then 0 else -EINVAL
      ensures m == S5_AUTH_NONE ==> state == ReqVersion && RequestNext(Value())
      ensures m == S5_AUTH_PASSWD ==> state == PwVersion && LoginNext(Value())
      ensures err != 0 ==> state == old(state)
    {
      err := 0;
      match m {
        case S5_AUTH_NONE =>
          state := ReqVersion;
          RequestExpected(Value());
        case S5_AUTH_PASSWD =>
          state := PwVersion;
          LoginExpected(Value());
        case _ => err := -EINVAL;
      }
    }
  }
}

// Redis2: the client of one server, tied method by method to SessionSpec.
module Session {
  import opened Wire
  import opened Decimal
  import opened Resp
  import opened Os
  import opened Links
  import opened Tcp
  import opened Protocol
  import opened SessionSpec

  // What assure_connect meets: the finding of the is_open check, and the attempt to connect.
  datatype ConnectEnv = ConnectEnv(alive: bool, attempt: Attempt)

  function ProbeOf(c: ConnectEnv): Probe {
    Probe(c.alive, if c.attempt.Reached? then Some(Flat(c.attempt.chunks)) else None)
  }

  ghost predicate Results(cmds: seq<RedisCommand>, results: seq<Finished>)
    reads cmds
  {
    |cmds| == |results| && forall k | 0 <= k < |cmds| :: Finished(cmds[k].Value(), cmds[k].out) == results[k]
  }

  class Redis2 {
    const proto: RedisProtocol
    var dbIndex: DbIndex
    var dbIndexSelectFailure: bool
    var pending: seq<RedisCommand>    // transaction_cmds_
    ghost var serverDb: int           // the database of the server on this connection

    ghost predicate Valid()
      reads this, proto, proto.tcp, proto.tcp.buffer, proto.tcp.buffer.data
    {
      proto.Valid() && Distinct(pending)
    }

    ghost function Repr(): set<object>
      reads this, proto, proto.tcp, proto.tcp.buffer
    {
      {this} + proto.Repr()
    }

    ghost function View(): Sess
      requires Valid()
      reads this, proto, proto.tcp, proto.tcp.buffer, proto.tcp.buffer.data
    {
      Sess(proto.View(), serverDb, dbIndex, dbIndexSelectFailure, Values(pending))
    }

    constructor (dbIndex: DbIndex)
      ensures Valid() && fresh(Repr()) && InDb(View())
      ensures View() == Sess(CLOSED_LINK, 0, dbIndex, true, [])
    {
      proto := new RedisProtocol();
      this.dbIndex, dbIndexSelectFailure, pending, serverDb := dbIndex, true, [], 0;
      new;
      assert Values(pending) == [];
    }

    method Close()
      requires Valid()
      modifies Repr()
      ensures Valid() && fresh(Repr() - old(Repr()))
      ensures View() == StepCall(old(View()), CClose)
    {
      proto.Close();
    }

    method OnReset()
      requires Valid()
      modifies this
      ensures Valid()
      ensures View() == old(View()).(failure := dbIndex != 0 || old(dbIndexSelectFailure), pending := [])
    {
      if dbIndex != 0 {
        dbIndexSelectFailure := true;
      }
      pending := [];
      assert Values(pending) == [];
    }

    method Select(index: DbIndex, c: ConnectEnv, w: WriteEnv) returns (ok: bool)
      requires Valid()
      modifies Repr()
      ensures Valid() && fresh(Repr() - old(Repr()))
      ensures SelectSpec(old(View()), index, ProbeOf(c), WriteFate(true, SelectCmd(index), w)) == Outcome(View(), ok)
    {
      hide ExecSpec, AfterSelect, WriteFate, RedisProtocol.Valid, RedisProtocol.View;
      var status := proto.AssureConnect(c.alive, c.attempt);
      if status != 0 {
        serverDb := 0;
      }
      if status == -1 {
        return false;
      }
      ok := IssueSelect(index, w);
    }

    method IssueSelect(index: DbIndex, w: WriteEnv) returns (ok: bool)
      requires Valid()
      modifies Repr()
      ensures Valid() && fresh(Repr() - old(Repr()))
      ensures var l := old(View()).link;
        var r := ExecSpec(l, SelectCmd(index), NoOutput, WriteFate(l.open, SelectCmd(index), w));
        AfterSelect(old(View()), index, r) == Outcome(View(), ok)
    {
      hide ExecSpec, WriteFate, RedisProtocol.Valid, RedisProtocol.View;
      var cmd := new RedisCommand(SELECT_INFO, [PrintInt(index)]);
      ok := proto.ExecCommand(cmd, w);
      if !ok {
        return;
      }
      dbIndex := index;
      if cmd.out == Status(OK) {
        dbIndexSelectFailure := false;
        serverDb := ServedDb(cmd.Value().OnWire(), serverDb);
        return true;
      }
      dbIndexSelectFailure := true;
      proto.SetError();
      return false;
    }

    method AssureConnect(c: ConnectEnv, c': ConnectEnv, w: WriteEnv) returns (ok: bool)
      requires Valid()
      modifies Repr()
      ensures Valid() && fresh(Repr() - old(Repr()))
      ensures AssureSpec(old(View()), ProbeOf(c), ProbeOf(c'), WriteFate(true, SelectCmd(old(dbIndex)), w))
           == Outcome(View(), ok)
    {
      hide SelectSpec, WriteFate, RedisProtocol.Valid, RedisProtocol.View;
      var status := proto.AssureConnect(c.alive, c.attempt);
      if status != 0 {
        serverDb := 0;
      }
      if status == -1 {
        return false;
      }
      if status == 1 {
        OnReset();
      }
      if dbIndex != 0 && dbIndexSelectFailure {
        ok := Select(dbIndex, c', w);
        return;
      }
      return true;
    }

    /** Any command that goes through assure_connect. */
    method Command(cmd: RedisCommand, c: ConnectEnv, c': ConnectEnv, w: WriteEnv, w': WriteEnv) returns (ok: bool)
      requires Valid()
      modifies Repr(), cmd
      ensures Valid() && fresh(Repr() - old(Repr()))
      ensures CommandSpec(old(View()), cmd.Value(), old(cmd.out), ProbeOf(c), ProbeOf(c'),
                          WriteFate(true, SelectCmd(old(dbIndex)), w), WriteFate(true, cmd.Value(), w'))
           == (View(), ExecResult(View().link, ok, cmd.out))
    {
      hide AssureSpec, ExecSpec, WriteFate, RedisProtocol.Valid, RedisProtocol.View;
      AssureOkIsOpen(View(), ProbeOf(c), ProbeOf(c'), WriteFate(true, SelectCmd(dbIndex), w));
      ok := AssureConnect(c, c', w);
      if ok {
        ok := proto.ExecCommand(cmd, w');
      }
    }

    /** multi: the pending list is kept, unless assure_connect had to reconnect. */
    method StartMulti(c: ConnectEnv, c': ConnectEnv, w: WriteEnv, w': WriteEnv) returns (ok: bool)
      requires Valid()
      modifies Repr()
      ensures Valid() && fresh(Repr() - old(Repr()))
      ensures MultiSpec(old(View()), ProbeOf(c), ProbeOf(c'),
                        WriteFate(true, SelectCmd(old(dbIndex)), w), WriteFate(true, MULTI_CMD, w'))
           == Outcome(View(), ok)
    {
      hide CommandSpec, WriteFate, RedisProtocol.Valid, RedisProtocol.View;
      var cmd := new RedisCommand(MULTI_INFO, []);
      ok := Command(cmd, c, c', w, w');
      if ok && cmd.out != Status(OK) {
        proto.SetError();
        ok := false;
      }
    }

    method AddCommand(info: CommandInfo, args: seq<Bytes>, formatted: bool, alive: bool, w: WriteEnv) returns (ok: bool)
      requires Valid()
      modifies Repr()
      ensures Valid() && fresh(Repr() - old(Repr()))
      ensures AddSpec(old(View()), Cmd(info, args), formatted, Probe(alive, None), WriteFate(true, Cmd(info, args), w))
           == Outcome(View(), ok)
    {
      hide ExecSpec, WriteFate, RedisProtocol.Valid, RedisProtocol.View;
      var open := proto.CheckConnect(alive);
      if !open {
        return false;
      }
      var inner := new RedisCommand(info, args);
      ok := proto.ExecCommand(inner, w);
      if !ok {
        return;
      }
      pending := pending + [inner];
      assert Values(pending) == old(View()).pending + [Cmd(info, args)];
      ok := formatted;
    }

    /** exec: element i of the reply goes to pending command i, arrays of bulks as mbulks. */
    method ExecTransaction(alive: bool, w: WriteEnv) returns (ok: bool, commands: seq<RedisCommand>)
      requires Valid()
      modifies Repr(), pending
      ensures Valid() && fresh(Repr() - old(Repr()))
      ensures var e := ExecTxSpec(old(View()), Probe(alive, None), WriteFate(true, EXEC_CMD, w));
        && View() == e.s && ok == e.ok
        && (ok ==> commands == old(pending) && Results(commands, e.results))
    {
      hide ExecSpec, WriteFate, RedisProtocol.Valid, RedisProtocol.View, Normalize, Pair, Results;
      commands := [];
      var open := proto.CheckConnect(alive);
      if !open {
        return false, commands;
      }
      var cmd := new RedisCommand(EXEC_INFO, []);
      ok := proto.ExecCommand(cmd, w);
      if !ok {
        return;
      }
      if cmd.out.SMBulk? && |cmd.out.outs| == |pending| {
        commands := PairUp(cmd.out.outs);
        return true, commands;
      }
      proto.SetError();
      return false, commands;
    }

    /** The elements of a matching EXEC reply go to the pending commands, which go to the caller. */
    method PairUp(outs: seq<Output>) returns (commands: seq<RedisCommand>)
      requires Valid() && |outs| == |pending|
      modifies this`pending, pending
      ensures Valid() && View() == old(View()).(pending := [])
      ensures commands == old(pending) && Results(commands, Pair(old(View()).pending, outs))
    {
      hide RedisProtocol.Valid, RedisProtocol.View, Normalize;
      HandOut(pending, outs);
      commands := pending;
      pending := [];
      assert Values(pending) == [];
    }

    method DiscardTransaction(alive: bool, w: WriteEnv) returns (ok: bool)
      requires Valid()
      modifies Repr()
      ensures Valid() && fresh(Repr() - old(Repr()))
      ensures DiscardSpec(old(View()), Probe(alive, None), WriteFate(true, DISCARD_CMD, w)) == Outcome(View(), ok)
    {
      hide ExecSpec, WriteFate, RedisProtocol.Valid, RedisProtocol.View;
      var open := proto.CheckConnect(alive);
      if !open {
        return false;
      }
      var cmd := new RedisCommand(DISCARD_INFO, []);
      ok := proto.ExecCommand(cmd, w);
      if !ok {
        return;
      }
      if cmd.out == Status(OK) {
        pending := [];
        assert Values(pending) == [];
        return true;
      }
      proto.SetError();
      return false;
    }
  }

  /** The loop of exec over the elements of the reply. */
  method HandOut(cmds: seq<RedisCommand>, outs: seq<Output>)
    requires |cmds| == |outs| && Distinct(cmds)
    modifies cmds
    ensures forall k | 0 <= k < |cmds| :: cmds[k].out == Normalize(outs[k])
  {
    var i := 0;
    while i < |cmds|
      invariant 0 <= i <= |cmds|
      invariant forall k | 0 <= k < i :: cmds[k].out == Normalize(outs[k])
    {
      cmds[i].out := outs[i];
      if cmds[i].out.SMBulk? && AllBulks(cmds[i].out.outs) {
        cmds[i].out := MBulk(ItemsOf(cmds[i].out.outs));
      }
      i := i + 1;
    }
  }
}

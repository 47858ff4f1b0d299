// RedisProtocol: the reply parser and the command writer over a TcpClient.
module Protocol {
  import opened Wire
  import opened Decimal
  import opened Resp
  import opened Request
  import opened Os
  import opened Tcp
  import opened Links
  import opened Pipeline

  class RedisCommand {
    const info: CommandInfo
    const args: seq<Bytes>
    var out: Output

    constructor (info: CommandInfo, args: seq<Bytes>)
      ensures this.info == info && this.args == args && out == NoOutput
    {
      this.info, this.args, out := info, args, NoOutput;
    }

    function Value(): Cmd {
      Cmd(info, args)
    }
  }

  class RedisProtocol {
    const tcp: TcpClient
    var transactionMode: bool
    var error: Failure
    ghost var calls: nat    // invocations of __read_reply so far
    ghost var taken: nat    // bytes taken off the connection so far

    ghost predicate Valid()
      reads this, tcp, tcp.buffer, tcp.buffer.data
    {
      tcp.Valid()
    }

    ghost function Repr(): set<object>
      reads this, tcp, tcp.buffer
    {
      {this} + tcp.Repr()
    }

    ghost function View(): Link
      requires Valid()
      reads this, tcp, tcp.buffer, tcp.buffer.data
    {
      Link(tcp.open, tcp.Unread(), if tcp.open then tcp.sent else [], transactionMode, error)
    }

    constructor ()
      ensures Valid() && fresh(Repr()) && View() == CLOSED_LINK
    {
      tcp := new TcpClient();
      transactionMode, error, calls, taken := false, Local, 0, 0;
    }

    method Close()
      requires Valid()
      modifies Repr()
      ensures Valid() && fresh(Repr() - old(Repr()))
      ensures View() == Link(false, [], [], false, old(error)) && calls == old(calls) && taken == old(taken)
    {
      tcp.Close();
      transactionMode := false;
    }

    /** Reconnecting does not touch transaction_mode_; only a failed attempt resets it. */
    method Connect(attempt: Attempt) returns (ok: bool)
      requires Valid()
      modifies Repr()
      ensures Valid() && fresh(Repr() - old(Repr()))
      ensures ok == attempt.Reached? && calls == old(calls)
      ensures ok ==> View() == Link(true, Flat(attempt.chunks), [], old(transactionMode), old(error))
      ensures !ok ==> View() == CLOSED_LINK
    {
      var ec := tcp.Connect(attempt);
      if ec != 0 {
        Close();
        error := Local;
        return false;
      }
      return true;
    }

    /** assure_connect: 0 already open, 1 connected now, -1 not connected. */
    method AssureConnect(alive: bool, attempt: Attempt) returns (status: int)
      requires Valid()
      modifies Repr()
      ensures Valid() && fresh(Repr() - old(Repr()))
      ensures old(View()).open && alive ==> status == 0 && View() == old(View())
      ensures !(old(View()).open && alive) && attempt.Reached? ==>
                status == 1 && View() == Link(true, Flat(attempt.chunks), [], old(View()).tx, old(View()).error)
      ensures !(old(View()).open && alive) && attempt.Unreachable? ==> status == -1 && View() == CLOSED_LINK
    {
      var yes := tcp.IsOpen(alive);
      if yes {
        return 0;
      }
      var ok := Connect(attempt);
      status := if ok then 1 else -1;
    }

    /** check_connect: refuses, with an error, when the connection is not open. */
    method CheckConnect(alive: bool) returns (ok: bool)
      requires Valid()
      modifies this`error
      ensures Valid() && ok == (old(View()).open && alive)
      ensures View() == if ok then old(View()) else old(View()).(error := Local)
    {
      ok := tcp.IsOpen(alive);
      if !ok {
        error := Local;
      }
    }

    /** last_error with a message of the client's own. */
    method SetError()
      requires Valid()
      modifies this`error
      ensures Valid() && View() == old(View()).(error := Local)
    {
      error := Local;
    }

    method Fail()
      requires Valid()
      modifies Repr()
      ensures Valid() && fresh(Repr() - old(Repr()))
      ensures View() == CLOSED_LINK && calls == old(calls) && taken == old(taken)
    {
      Close();
      error := Local;
    }

    // ---------- reading ----------

    /** The bytes taken since 't' were part of 'before'; 'whole' says that all the others are still unread. */
    ghost predicate Took(t: nat, before: Bytes, whole: bool)
      requires Valid()
      reads this, tcp, tcp.buffer, tcp.buffer.data
    {
      && t <= taken <= t + |before|
      && (whole ==> taken - t == |before| - |tcp.Unread()|)
    }

    method ReadLine() returns (line: Option<Bytes>)
      requires Valid()
      modifies Repr()
      ensures Valid() && fresh(Repr() - old(Repr()))
      ensures calls == old(calls) && Took(old(taken), old(tcp.Unread()), line.Some?)
      ensures line.Some? ==>
                && line.value != []
                && SplitLine(old(tcp.Unread())) == Some((line.value, tcp.Unread()))
                && View() == old(View()).(unread := tcp.Unread())
      ensures line.None? ==>
                && (SplitLine(old(tcp.Unread())).None? || SplitLine(old(tcp.Unread())).value.0 == [])
                && View() == CLOSED_LINK
    {
      hide SplitLine;
      line := tcp.ReadLine();
      if line.Some? {
        taken := taken + (|old(tcp.Unread())| - |tcp.Unread()|);
      }
      if line.None? || line.value == [] {
        Fail();
        line := None;
      }
    }

    method ReadBlock(count: nat) returns (block: Option<Bytes>)
      requires Valid() && 0 < count <= INT64_MAX
      modifies Repr()
      ensures Valid() && fresh(Repr() - old(Repr()))
      ensures calls == old(calls) && Took(old(taken), old(tcp.Unread()), block.Some?)
      ensures block.Some? ==>
                && TakeBlock(old(tcp.Unread()), count) == Some((block.value, tcp.Unread()))
                && View() == old(View()).(unread := tcp.Unread())
      ensures block.None? ==> TakeBlock(old(tcp.Unread()), count) == None && View() == CLOSED_LINK
    {
      block := tcp.Read(count);
      if block.Some? {
        taken := taken + (|old(tcp.Unread())| - |tcp.Unread()|);
      }
      if block.None? {
        Fail();
      }
    }

    method ReadBulkBody(header: Bytes) returns (r: Option<Option<Bytes>>)
      requires Valid() && header != []
      modifies Repr()
      ensures Valid() && fresh(Repr() - old(Repr()))
      ensures calls == old(calls) && Took(old(taken), old(tcp.Unread()), r.Some?)
      ensures r.Some? ==>
                && ReadBulk2(header, old(tcp.Unread())) == Some((r.value, tcp.Unread()))
                && View() == old(View()).(unread := tcp.Unread())
      ensures r.None? ==> ReadBulk2(header, old(tcp.Unread())) == None && View() == CLOSED_LINK
    {
      hide ParseInteger, TakeBlock;
      var i := ParseInteger(header);
      if i.None? || i.value < -1 || i.value == 0 {
        Fail();
        return None;
      }
      if i.value == -1 {
        return Some(None);
      }
      var block := ReadBlock(i.value);
      if block.None? {
        return None;
      }
      return Some(block);
    }

    method ReadOneBulk() returns (r: Option<Option<Bytes>>)
      requires Valid()
      modifies Repr()
      ensures Valid() && fresh(Repr() - old(Repr()))
      ensures calls == old(calls) && Took(old(taken), old(tcp.Unread()), r.Some?)
      ensures r.Some? ==>
                && ReadBulk(old(tcp.Unread())) == Some((r.value, tcp.Unread()))
                && View() == old(View()).(unread := tcp.Unread())
      ensures r.None? ==> ReadBulk(old(tcp.Unread())) == None && View() == CLOSED_LINK
    {
      hide ReadBulk2, SplitLine;
      var header := ReadLine();
      if header.None? {
        return None;
      }
      if header.value[0] != DOLLAR {
        Fail();
        return None;
      }
      r := ReadBulkBody(header.value);
    }

    method ReadMultiBulkBody(header: Bytes) returns (r: Option<Option<seq<Option<Bytes>>>>)
      requires Valid() && header != []
      modifies Repr()
      ensures Valid() && fresh(Repr() - old(Repr()))
      ensures calls == old(calls) && Took(old(taken), old(tcp.Unread()), r.Some?)
      ensures r.Some? ==>
                && ReadMultiBulk2(header, old(tcp.Unread())) == Some((r.value, tcp.Unread()))
                && View() == old(View()).(unread := tcp.Unread())
      ensures r.None? ==> ReadMultiBulk2(header, old(tcp.Unread())) == None && View() == CLOSED_LINK
    {
      hide ParseInteger, ReadBulks;
      var n := ParseInteger(header);
      if n.None? || n.value < -1 {
        Fail();
        return None;
      }
      if n.value == -1 {
        return Some(None);
      }
      var items := ReadBulkRun(n.value);
      if items.None? {
        return None;
      }
      return Some(items);
    }

    method ReadBulkRun(n: nat) returns (r: Option<seq<Option<Bytes>>>)
      requires Valid()
      modifies Repr()
      ensures Valid() && fresh(Repr() - old(Repr()))
      ensures calls == old(calls) && Took(old(taken), old(tcp.Unread()), r.Some?)
      ensures r.Some? ==>
                && ReadBulks(n, old(tcp.Unread())) == Some((r.value, tcp.Unread()))
                && View() == old(View()).(unread := tcp.Unread())
      ensures r.None? ==> ReadBulks(n, old(tcp.Unread())) == None && View() == CLOSED_LINK
    {
      hide ReadBulk, TcpClient.Unread, TcpClient.Valid;
      var items: seq<Option<Bytes>> := [];
      var j := 0;
      ghost var start := tcp.Unread();
      PrependNoItems(ReadBulks(n, start));
      while j < n
        invariant 0 <= j <= n
        invariant Valid() && fresh(Repr() - old(Repr())) && calls == old(calls)
        invariant Took(old(taken), start, true)
        invariant View() == old(View()).(unread := tcp.Unread())
        invariant ReadBulks(n, start) == PrependItems(items, ReadBulks(n - j, tcp.Unread()))
      {
        ghost var before := tcp.Unread();
        var bulk := ReadOneBulk();
        if bulk.None? {
          return None;
        }
        BulksStep(items, bulk.value, n - j, before, tcp.Unread());
        items := items + [bulk.value];
        j := j + 1;
      }
      assert items + [] == items;
      return Some(items);
    }

    // ---------- replies ----------

    /** The invocations of __read_reply made since 'c', bounded by the bytes taken since 't' out of 'before'. */
    ghost predicate Work(c: nat, t: nat, before: Bytes, ok: bool)
      requires Valid()
      reads this, tcp, tcp.buffer, tcp.buffer.data
    {
      && c <= calls && Took(t, before, ok || tcp.open)
      && 3 * (calls - c) <= taken - t + if ok || tcp.open then 0 else 3
    }

    /**
     * __read_reply: result, output, stream, mode and error are those of ReadReply on the
     * unconsumed stream, and at most one invocation is made for every 3 bytes taken, and one more
     * when the connection closes, whatever counts the arrays declare.
     */
    method ReadReplyInto(info: CommandInfo, check: bool, top: bool, out0: Output) returns (ok: bool, out: Output)
      requires Valid()
      modifies Repr()
      ensures Valid() && fresh(Repr() - old(Repr()))
      ensures var p := ReadReply(info, check, top, old(transactionMode), old(tcp.Unread()));
        ok == p.Done? && out == OutAfter(out0, p) && View() == AfterParse(old(View()), p)
      ensures Work(old(calls), old(taken), old(tcp.Unread()), ok)
      decreases |tcp.Unread()|, 0
    {
      hide ReadBody, SplitLine, TcpClient.Unread, TcpClient.Valid;
      calls := calls + 1;
      var line := ReadLine();
      if line.None? {
        return false, Error(Local);
      }
      ok, out := ReadReplyBody(info, check, top, line.value, out0);
    }

    method ReadReplyBody(info: CommandInfo, check: bool, top: bool, line: Bytes, out0: Output)
      returns (ok: bool, out: Output)
      requires Valid() && line != []
      modifies Repr()
      ensures Valid() && fresh(Repr() - old(Repr()))
      ensures var p := ReadBody(info, check, top, old(transactionMode), line, old(tcp.Unread()));
        ok == p.Done? && out == OutAfter(out0, p) && View() == AfterParse(old(View()), p)
      ensures Work(old(calls), old(taken), old(tcp.Unread()), ok)
      decreases |tcp.Unread()|, 2
    {
      hide ReadBody;
      if line[0] == STAR {
        ok, out := ReadArrayReply(info, check, top, line, out0);
      } else if line[0] == DOLLAR {
        ok, out := ReadBulkReply(info, check, top, line, out0);
      } else {
        ok, out := ReadSimpleReply(info, check, top, line, out0);
      }
    }

    method ReadSimpleReply(info: CommandInfo, check: bool, top: bool, line: Bytes, out0: Output)
      returns (ok: bool, out: Output)
      requires Valid() && line != [] && line[0] != STAR && line[0] != DOLLAR
      modifies Repr()
      ensures Valid() && fresh(Repr() - old(Repr()))
      ensures var p := ReadBody(info, check, top, old(transactionMode), line, old(tcp.Unread()));
        ok == p.Done? && out == OutAfter(out0, p) && View() == AfterParse(old(View()), p)
      ensures Work(old(calls), old(taken), old(tcp.Unread()), ok)
    {
      hide SpecialBody, ReadBulk2, ReadMultiBulk2, ParseInteger, TcpClient.Unread, TcpClient.Valid;
      var chk := check && info.kind != KDepends;
      var exp := Expected(info, check, transactionMode);
      if line[0] == MINUS {
        error := Server(line[1..]);
        return false, Error(error);
      }
      if line[0] == PLUS && !(chk && exp != KStatus) {
        SetMode(StatusMode(info.verb, transactionMode));
        return true, Status(line[1..]);
      }
      if line[0] == COLON && !(chk && exp != KInteger) {
        var i := ParseInteger(line);
        if i.Some? {
          return true, Integer(i.value);
        }
      }
      Fail();
      return false, Error(Local);
    }

    method ReadBulkReply(info: CommandInfo, check: bool, top: bool, line: Bytes, out0: Output)
      returns (ok: bool, out: Output)
      requires Valid() && line != [] && line[0] == DOLLAR
      modifies Repr()
      ensures Valid() && fresh(Repr() - old(Repr()))
      ensures var p := ReadBody(info, check, top, old(transactionMode), line, old(tcp.Unread()));
        ok == p.Done? && out == OutAfter(out0, p) && View() == AfterParse(old(View()), p)
      ensures Work(old(calls), old(taken), old(tcp.Unread()), ok)
    {
      hide ReadBody, ReadBulk2, Expected, TcpClient.Unread, TcpClient.Valid;
      BodyOfBulk(info, check, top, transactionMode, line, tcp.Unread());
      if check && info.kind != KDepends && Expected(info, check, transactionMode) != KBulk {
        Fail();
        return false, Error(Local);
      }
      var bulk := ReadBulkBody(line);
      if bulk.Some? {
        return true, FromBulk(bulk.value);
      }
      return false, Error(Local);
    }

    method ReadArrayReply(info: CommandInfo, check: bool, top: bool, line: Bytes, out0: Output)
      returns (ok: bool, out: Output)
      requires Valid() && line != [] && line[0] == STAR
      modifies Repr()
      ensures Valid() && fresh(Repr() - old(Repr()))
      ensures var p := ReadBody(info, check, top, old(transactionMode), line, old(tcp.Unread()));
        ok == p.Done? && out == OutAfter(out0, p) && View() == AfterParse(old(View()), p)
      ensures Work(old(calls), old(taken), old(tcp.Unread()), ok)
      decreases |tcp.Unread()|, 1, 3
    {
      hide SpecialBody, ReadBulk2, ReadMultiBulk2, ParseInteger, TcpClient.Unread, TcpClient.Valid;
      var chk := check && info.kind != KDepends;
      var exp := Expected(info, check, transactionMode);
      if chk && exp != KMultiBulk && exp != KSpecialMultiBulk {
        Fail();
        return false, Error(Local);
      }
      if exp != KMultiBulk {
        ok, out := ReadSpecial(info, top, line, out0);
        return;
      }
      var bulks := ReadMultiBulkBody(line);
      if bulks.Some? {
        return true, FromBulks(bulks.value);
      }
      return false, Error(Local);
    }

    method ReadSpecial(info: CommandInfo, top: bool, line: Bytes, out0: Output) returns (ok: bool, out: Output)
      requires Valid() && line != []
      modifies Repr()
      ensures Valid() && fresh(Repr() - old(Repr()))
      ensures var p := SpecialBody(info, top, old(transactionMode), line, old(tcp.Unread()));
        ok == p.Done? && out == OutAfter(out0, p) && View() == AfterParse(old(View()), p)
      ensures Work(old(calls), old(taken), old(tcp.Unread()), ok)
      decreases |tcp.Unread()|, 1, 2
    {
      hide ReadElements, ParseInteger, TcpClient.Unread, TcpClient.Valid;
      var n := ParseInteger(line);
      if n.None? {
        Fail();
        return false, Error(Local);
      }
      if n.value == -1 {
        SetMode(ArrayMode(info.verb, top, transactionMode));
        return true, NilSMBulk;
      }
      ok, out := ReadSpecialElements(info, top, n.value, out0);
    }

    /** The elements of a special multi-bulk; a failure among them leaves the caller's output as it was. */
    method ReadSpecialElements(info: CommandInfo, top: bool, n: int, out0: Output) returns (ok: bool, out: Output)
      requires Valid()
      modifies Repr()
      ensures Valid() && fresh(Repr() - old(Repr()))
      ensures var p := FromElements(info.verb, top, ReadElements(info, n, old(transactionMode), old(tcp.Unread())));
        ok == p.Done? && out == OutAfter(out0, p) && View() == AfterParse(old(View()), p)
      ensures Work(old(calls), old(taken), old(tcp.Unread()), ok)
      decreases |tcp.Unread()|, 1, 1
    {
      hide ReadElements, TcpClient.Unread, TcpClient.Valid;
      var outs;
      ok, outs := ReadChildren(info, n);
      if !ok {
        return false, out0;
      }
      SetMode(ArrayMode(info.verb, top, transactionMode));
      return true, SMBulk(outs);
    }

    method SetMode(tx: bool)
      requires Valid()
      modifies this`transactionMode
      ensures Valid() && View() == old(View()).(tx := tx)
    {
      transactionMode := tx;
    }

    method ReadChildren(info: CommandInfo, n: int) returns (ok: bool, outs: seq<Output>)
      requires Valid()
      modifies Repr()
      ensures Valid() && fresh(Repr() - old(Repr()))
      ensures var p := ReadElements(info, n, old(transactionMode), old(tcp.Unread()));
        && ok == p.AllDone?
        && (ok ==> outs == p.outs)
        && View() == AfterElements(old(View()), p)
      ensures Work(old(calls), old(taken), old(tcp.Unread()), ok)
      decreases |tcp.Unread()|, 1, 0
    {
      hide ReadReply, ReadElements, Prepend, TcpClient.Unread, TcpClient.Valid;
      outs := [];
      var i := 0;
      ghost var start, tx := tcp.Unread(), transactionMode;
      PrependNone(ReadElements(info, n, tx, start));
      while i < n
        invariant 0 <= i && (i <= n || i == 0)
        invariant Valid() && fresh(Repr() - old(Repr()))
        invariant View() == old(View()).(unread := tcp.Unread(), tx := transactionMode)
        invariant |tcp.Unread()| <= |start|
        invariant ReadElements(info, n, tx, start)
               == Prepend(outs, ReadElements(info, n - i, transactionMode, tcp.Unread()))
        invariant Work(old(calls), old(taken), start, true)
        decreases n - i
      {
        ElementsStep(info, n - i, transactionMode, tcp.Unread(), outs);
        var child;
        ok, child := ReadReplyInto(info, false, false, NoOutput);
        if !ok {
          return false, [];
        }
        outs := outs + [child];
        i := i + 1;
      }
      ok := true;
      ElementsEnd(info, n - i, transactionMode, tcp.Unread(), outs);
    }

    // ---------- commands ----------

    /**
     * write_command: the fate of the write is that of the kernel, and on an open connection
     * exactly the request is sent.
     */
    method WriteCommand(cmd: RedisCommand, env: WriteEnv) returns (ok: bool)
      requires Valid()
      modifies Repr(), cmd
      ensures Valid() && fresh(Repr() - old(Repr())) && calls == old(calls)
      ensures WriteSpec(old(View()), cmd.Value(), WriteFate(old(View()).open, cmd.Value(), env))
           == WriteResult(View(), ok)
      ensures ok && View().open ==> View().sent == old(View()).sent + Cut(Encode([cmd.info.name] + cmd.args))
      ensures cmd.out == if ok then old(cmd.out) else Error(Local)
    {
      hide TcpClient.Unread, TcpClient.Valid, Encode, WriteCompletes, WriteCode, Cut;
      if !ArgcOk(cmd.info.argc, |cmd.args|) {
        error := Local;
        cmd.out := Error(Local);
        return false;
      }
      var ec := tcp.Write(Encode(cmd.Value().Words()), env);
      WriteCodeOfComplete(old(View()).open, Encode(cmd.Value().Words()), env);
      if ec != 0 {
        Fail();
        cmd.out := Error(Local);
        return false;
      }
      return true;
    }

    /** read_reply. */
    method ReadReplyOf(cmd: RedisCommand) returns (ok: bool)
      requires Valid()
      modifies Repr(), cmd
      ensures Valid() && fresh(Repr() - old(Repr()))
      ensures ReadSpec(old(View()), cmd.info, old(cmd.out)) == ExecResult(View(), ok, cmd.out)
    {
      hide TcpClient.Unread, TcpClient.Valid, ReadReply;
      var out;
      ok, out := ReadReplyInto(cmd.info, true, true, cmd.out);
      cmd.out := out;
    }

    /** exec_command is ExecSpec of the connection and of the fate that the kernel gives the write. */
    method ExecCommand(cmd: RedisCommand, env: WriteEnv) returns (ok: bool)
      requires Valid()
      modifies Repr(), cmd
      ensures Valid() && fresh(Repr() - old(Repr()))
      ensures ExecSpec(old(View()), cmd.Value(), old(cmd.out), WriteFate(old(View()).open, cmd.Value(), env))
           == ExecResult(View(), ok, cmd.out)
    {
      hide RedisProtocol.View, RedisProtocol.Valid, WriteSpec, WriteFate, ReadSpec;
      ok := WriteCommand(cmd, env);
      if ok {
        ok := ReadReplyOf(cmd);
      }
    }

    /**
     * exec_pipeline: write all, read all. 'probes' are the findings of the is_open checks. The
     * connection, the result and the output of every command are exact for every outcome.
     */
    method ExecPipeline(cmds: seq<RedisCommand>, envs: seq<WriteEnv>, probes: seq<bool>) returns (ok: bool)
      requires Valid() && Distinct(cmds)
      requires |envs| == |cmds| && |probes| == 2 * |cmds|
      modifies Repr(), cmds
      ensures Valid() && fresh(Repr() - old(Repr()))
      ensures PipeSpec(old(View()), old(PipeOf(View().open, cmds, envs, probes))) == PipeEnd(View(), ok, Outs(cmds))
    {
      hide RedisProtocol.View, RedisProtocol.Valid, WritesSpec, ReadsSpec, WriteFate;
      ok := WriteAll(cmds, envs, probes[..|cmds|]);
      if ok {
        ok := ReadAll(cmds, probes[|cmds|..]);
      }
    }

    method WriteAll(cmds: seq<RedisCommand>, envs: seq<WriteEnv>, probes: seq<bool>) returns (ok: bool)
      requires Valid() && |envs| == |cmds| && |probes| == |cmds| && Distinct(cmds)
      modifies Repr(), cmds
      ensures Valid() && fresh(Repr() - old(Repr()))
      ensures WritesSpec(old(View()), Values(cmds), old(Outs(cmds)), Fates(old(View()).open, cmds, envs), probes)
           == PipeEnd(View(), ok, Outs(cmds))
    {
      hide RedisProtocol.View, RedisProtocol.Valid, WritesSpec, WriteSpec, WriteFate, WritesOn, Values, Fates, Outs;
      ghost var l, values, fates, outs := View(), Values(cmds), Fates(View().open, cmds, envs), Outs(cmds);
      WritesFromStart(l, values, outs, fates, probes);
      var i := 0;
      while i < |cmds|
        invariant 0 <= i <= |cmds|
        invariant Valid() && fresh(Repr() - old(Repr()))
        invariant View().open == l.open && Outs(cmds) == outs
        invariant WritesOn(l, values, outs, fates, probes, i, View())
      {
        WritesStep(l, values, outs, fates, probes, i, View());
        WriteKeepsOpen(View(), values[i], fates[i]);
        ok := WriteOne(cmds[i], envs[i], probes[i]);
        OutsAfter(cmds, i, outs);
        if !ok {
          return false;
        }
        i := i + 1;
      }
      ok := true;
      WritesAtEnd(l, values, outs, fates, probes, View());
    }

    method ReadAll(cmds: seq<RedisCommand>, probes: seq<bool>) returns (ok: bool)
      requires Valid() && |probes| == |cmds| && Distinct(cmds)
      modifies Repr(), cmds
      ensures Valid() && fresh(Repr() - old(Repr()))
      ensures ReadsSpec(old(View()), Values(cmds), old(Outs(cmds)), probes) == PipeEnd(View(), ok, Outs(cmds))
    {
      hide RedisProtocol.View, RedisProtocol.Valid, ReadsSpec, ReadSpec, ReadsOn, Values, Outs;
      ghost var l, values, outs := View(), Values(cmds), Outs(cmds);
      ReadsFromStart(l, values, outs, probes);
      var i := 0;
      while i < |cmds|
        invariant 0 <= i <= |cmds|
        invariant Valid() && fresh(Repr() - old(Repr()))
        invariant ReadsOn(l, values, outs, probes, i, View(), Outs(cmds))
      {
        ghost var now := Outs(cmds);
        ReadsStep(l, values, outs, probes, i, View(), now);
        ok := ReadOne(cmds[i], probes[i]);
        OutsAfter(cmds, i, now);
        if !ok {
          return false;
        }
        i := i + 1;
      }
      ok := true;
      ReadsAtEnd(l, values, outs, probes, View(), Outs(cmds));
    }

    /** One turn of the writing loop. */
    method WriteOne(cmd: RedisCommand, env: WriteEnv, alive: bool) returns (ok: bool)
      requires Valid()
      modifies Repr(), cmd
      ensures Valid() && fresh(Repr() - old(Repr()))
      ensures var r := WriteSpec(old(View()), cmd.Value(), WriteFate(old(View()).open, cmd.Value(), env));
        && ok == (r.ok && r.link.open && alive)
        && View() == (if r.ok && !ok then CLOSED_LINK else r.link)
        && cmd.out == if r.ok then old(cmd.out) else Error(Local)
    {
      hide RedisProtocol.View, RedisProtocol.Valid, WriteSpec, WriteFate;
      ok := WriteCommand(cmd, env);
      if ok {
        ok := StillConnected(alive);
      }
    }

    /** One turn of the reading loop. */
    method ReadOne(cmd: RedisCommand, alive: bool) returns (ok: bool)
      requires Valid()
      modifies Repr(), cmd
      ensures Valid() && fresh(Repr() - old(Repr()))
      ensures var r := ReadSpec(old(View()), cmd.info, old(cmd.out));
        && ok == (r.ok && r.link.open && alive)
        && View() == (if r.ok && !ok then CLOSED_LINK else r.link)
        && cmd.out == r.out
    {
      hide RedisProtocol.View, RedisProtocol.Valid, ReadSpec;
      ok := ReadReplyOf(cmd);
      if ok {
        ok := StillConnected(alive);
      }
    }

    /** The is_open check between two operations of a pipeline. */
    method StillConnected(alive: bool) returns (yes: bool)
      requires Valid()
      modifies Repr()
      ensures Valid() && fresh(Repr() - old(Repr()))
      ensures yes == (old(View()).open && alive) && View() == if yes then old(View()) else CLOSED_LINK
    {
      yes := tcp.IsOpen(alive);
      if !yes {
        Fail();
      }
    }
  }

  // ---------- the loops of exec_pipeline ----------

  /** Only command i has changed. */
  lemma OutsAfter(cmds: seq<RedisCommand>, i: nat, before: seq<Output>)
    requires i < |cmds| == |before| && forall k | 0 <= k < |cmds| && k != i :: cmds[k].out == before[k]
    ensures Outs(cmds) == before[i := cmds[i].out]
  {
  }

  /** With i commands written the connection is m and the others are still to be written. */
  ghost predicate WritesOn(l: Link, cmds: seq<Cmd>, outs: seq<Output>, ws: seq<Written>, alive: seq<bool>,
                           i: nat, m: Link)
  {
    && |outs| == |ws| == |alive| == |cmds| && i <= |cmds|
    && WritesSpec(l, cmds, outs, ws, alive)
    == Behind(outs[..i], WritesSpec(m, cmds[i..], outs[i..], ws[i..], alive[i..]))
  }

  lemma WritesFromStart(l: Link, cmds: seq<Cmd>, outs: seq<Output>, ws: seq<Written>, alive: seq<bool>)
    requires |outs| == |ws| == |alive| == |cmds|
    ensures WritesOn(l, cmds, outs, ws, alive, 0, l)
  {
    hide WritesSpec;
    assert cmds[0..] == cmds && outs[0..] == outs && ws[0..] == ws && alive[0..] == alive;
    var e := WritesSpec(l, cmds, outs, ws, alive);
    assert outs[..0] + e.outs == e.outs;
  }

  /** The tails from i, one step shorter. */
  lemma TailOf<T>(xs: seq<T>, i: nat)
    requires i < |xs|
    ensures xs[i..] != [] && xs[i..][0] == xs[i] && xs[i..][1..] == xs[i + 1..]
  {
  }

  lemma Replaced(outs: seq<Output>, i: nat, out: Output)
    requires i < |outs|
    ensures outs[..i] + ([out] + outs[i + 1..]) == outs[i := out]
    ensures outs[i := out][..i + 1] == outs[..i] + [out]
    ensures outs[i := out][i + 1..] == outs[i + 1..]
    ensures outs[..i] + outs[i..] == outs
  {
  }

  lemma BehindOne(done: seq<Output>, out: Output, e: PipeEnd)
    ensures Behind(done, Behind([out], e)) == Behind(done + [out], e)
  {
    assert done + ([out] + e.outs) == done + [out] + e.outs;
  }

  lemma WritesStep(l: Link, cmds: seq<Cmd>, outs: seq<Output>, ws: seq<Written>, alive: seq<bool>, i: nat, m: Link)
    requires WritesOn(l, cmds, outs, ws, alive, i, m) && |outs| == |ws| == |alive| == |cmds| && i < |cmds|
    ensures var e, r := WritesSpec(l, cmds, outs, ws, alive), WriteSpec(m, cmds[i], ws[i]);
      if !r.ok then e == PipeEnd(r.link, false, outs[i := Error(Local)])
      else if !(r.link.open && alive[i]) then e == PipeEnd(CLOSED_LINK, false, outs)
      else WritesOn(l, cmds, outs, ws, alive, i + 1, r.link)
  {
    hide WriteSpec, WritesSpec;
    TailOf(cmds, i);
    TailOf(outs, i);
    TailOf(ws, i);
    TailOf(alive, i);
    WritesHead(m, cmds[i..], outs[i..], ws[i..], alive[i..]);
    Replaced(outs, i, Error(Local));
    assert outs[..i + 1] == outs[..i] + [outs[i]];
    var r := WriteSpec(m, cmds[i], ws[i]);
    if r.ok && r.link.open && alive[i] {
      BehindOne(outs[..i], outs[i], WritesSpec(r.link, cmds[i + 1..], outs[i + 1..], ws[i + 1..], alive[i + 1..]));
    }
  }

  lemma WritesHead(l: Link, cmds: seq<Cmd>, outs: seq<Output>, ws: seq<Written>, alive: seq<bool>)
    requires |outs| == |ws| == |alive| == |cmds| > 0
    ensures var r := WriteSpec(l, cmds[0], ws[0]);
      WritesSpec(l, cmds, outs, ws, alive) ==
      if !r.ok then PipeEnd(r.link, false, [Error(Local)] + outs[1..])
      else if !(r.link.open && alive[0]) then PipeEnd(CLOSED_LINK, false, outs)
      else Behind([outs[0]], WritesSpec(r.link, cmds[1..], outs[1..], ws[1..], alive[1..]))
  {
    hide WriteSpec;
  }

  lemma WritesAtEnd(l: Link, cmds: seq<Cmd>, outs: seq<Output>, ws: seq<Written>, alive: seq<bool>, m: Link)
    requires WritesOn(l, cmds, outs, ws, alive, |cmds|, m) && |outs| == |ws| == |alive| == |cmds|
    ensures WritesSpec(l, cmds, outs, ws, alive) == PipeEnd(m, true, outs)
  {
    assert outs[..|cmds|] + [] == outs;
  }

  /** With i replies read the connection is m, the outputs are 'now' and the others are still to be read. */
  ghost predicate ReadsOn(l: Link, cmds: seq<Cmd>, outs: seq<Output>, alive: seq<bool>, i: nat, m: Link,
                          now: seq<Output>)
  {
    && |now| == |outs| == |alive| == |cmds| && i <= |cmds|
    && now[i..] == outs[i..]
    && ReadsSpec(l, cmds, outs, alive) == Behind(now[..i], ReadsSpec(m, cmds[i..], outs[i..], alive[i..]))
  }

  lemma ReadsFromStart(l: Link, cmds: seq<Cmd>, outs: seq<Output>, alive: seq<bool>)
    requires |outs| == |alive| == |cmds|
    ensures ReadsOn(l, cmds, outs, alive, 0, l, outs)
  {
    hide ReadsSpec;
    assert cmds[0..] == cmds && outs[0..] == outs && alive[0..] == alive;
    var e := ReadsSpec(l, cmds, outs, alive);
    assert outs[..0] + e.outs == e.outs;
  }

  lemma ReadsStep(l: Link, cmds: seq<Cmd>, outs: seq<Output>, alive: seq<bool>, i: nat, m: Link, now: seq<Output>)
    requires ReadsOn(l, cmds, outs, alive, i, m, now) && |now| == |outs| == |alive| == |cmds| && i < |cmds|
    ensures var e, r := ReadsSpec(l, cmds, outs, alive), ReadSpec(m, cmds[i].info, now[i]);
      var next := now[i := r.out];
      if !r.ok then e == PipeEnd(r.link, false, next)
      else if !(r.link.open && alive[i]) then e == PipeEnd(CLOSED_LINK, false, next)
      else ReadsOn(l, cmds, outs, alive, i + 1, r.link, next)
  {
    hide ReadSpec, ReadsSpec;
    TailOf(cmds, i);
    TailOf(outs, i);
    TailOf(now, i);
    TailOf(alive, i);
    ReadsHead(m, cmds[i..], outs[i..], alive[i..]);
    var r := ReadSpec(m, cmds[i].info, now[i]);
    Replaced(now, i, r.out);
    if r.ok && r.link.open && alive[i] {
      BehindOne(now[..i], r.out, ReadsSpec(r.link, cmds[i + 1..], outs[i + 1..], alive[i + 1..]));
    }
  }

  lemma ReadsHead(l: Link, cmds: seq<Cmd>, outs: seq<Output>, alive: seq<bool>)
    requires |outs| == |alive| == |cmds| > 0
    ensures var r := ReadSpec(l, cmds[0].info, outs[0]);
      ReadsSpec(l, cmds, outs, alive) ==
      if !r.ok then PipeEnd(r.link, false, [r.out] + outs[1..])
      else if !(r.link.open && alive[0]) then PipeEnd(CLOSED_LINK, false, [r.out] + outs[1..])
      else Behind([r.out], ReadsSpec(r.link, cmds[1..], outs[1..], alive[1..]))
  {
    hide ReadSpec;
  }

  lemma ReadsAtEnd(l: Link, cmds: seq<Cmd>, outs: seq<Output>, alive: seq<bool>, m: Link, now: seq<Output>)
    requires ReadsOn(l, cmds, outs, alive, |cmds|, m, now) && |now| == |outs| == |alive| == |cmds|
    ensures ReadsSpec(l, cmds, outs, alive) == PipeEnd(m, true, now)
  {
    assert now[..|cmds|] + [] == now;
  }

  predicate Distinct(cmds: seq<RedisCommand>) {
    forall i, j | 0 <= i < j < |cmds| :: cmds[i] != cmds[j]
  }

  function Values(cmds: seq<RedisCommand>): (values: seq<Cmd>)
    ensures |values| == |cmds|
    ensures forall k | 0 <= k < |cmds| :: values[k] == cmds[k].Value()
  {
    seq(|cmds|, k requires 0 <= k < |cmds| => cmds[k].Value())
  }

  /** The fates of the writes of a pipeline. */
  function Fates(open: bool, cmds: seq<RedisCommand>, envs: seq<WriteEnv>): (ws: seq<Written>)
    requires |envs| == |cmds|
    ensures |ws| == |cmds|
    ensures forall k | 0 <= k < |cmds| :: ws[k] == WriteFate(open, cmds[k].Value(), envs[k])
  {
    seq(|cmds|, k requires 0 <= k < |cmds| => WriteFate(open, cmds[k].Value(), envs[k]))
  }

  function Outs(cmds: seq<RedisCommand>): (outs: seq<Output>)
    reads cmds
    ensures |outs| == |cmds|
    ensures forall k | 0 <= k < |cmds| :: outs[k] == cmds[k].out
  {
    seq(|cmds|, k requires 0 <= k < |cmds| reads cmds => cmds[k].out)
  }

  /** A pipeline of command objects as a value. */
  ghost function PipeOf(open: bool, cmds: seq<RedisCommand>, envs: seq<WriteEnv>, probes: seq<bool>): Pipe
    requires |envs| == |cmds| && |probes| == 2 * |cmds|
    reads cmds
  {
    PipeCall(Values(cmds), Outs(cmds), Fates(open, cmds, envs), probes)
  }

  /** A completed write carries no error code. */
  lemma WriteCodeOfComplete(open: bool, line: Bytes, env: WriteEnv)
    ensures open && WriteCompletes(line, env.events) ==> WriteCode(open, line, env) == 0
  {
  }

  lemma BodyOfBulk(info: CommandInfo, check: bool, top: bool, tx: bool, line: Bytes, s: Bytes)
    requires line != [] && line[0] == DOLLAR
    ensures ReadBody(info, check, top, tx, line, s) ==
            if Checking(info, check) && Expected(info, check, tx) != KBulk then Closed(false)
            else
              match ReadBulk2(line, s)
              case None => Closed(false)
              case Some(b) => Done(FromBulk(b.0), b.1, tx)
  {
    hide Expected, ReadBulk2;
  }

  function AfterElements(l: Link, p: ParseSeq): Link {
    match p
    case AllDone(_, rest, tx) => l.(unread := rest, tx := tx)
    case SeqRefused(text, rest, tx) => l.(unread := rest, tx := tx, error := Server(text))
    case SeqClosed => CLOSED_LINK
  }

  lemma PrependNone(p: ParseSeq)
    ensures Prepend([], p) == p
  {
    if p.AllDone? {
      assert [] + p.outs == p.outs;
    }
  }

  lemma ElementsEnd(info: CommandInfo, n: int, tx: bool, s: Bytes, outs: seq<Output>)
    requires n <= 0
    ensures Prepend(outs, ReadElements(info, n, tx, s)) == AllDone(outs, s, tx)
  {
    assert outs + [] == outs;
  }

  lemma ElementsStep(info: CommandInfo, n: int, tx: bool, s: Bytes, outs: seq<Output>)
    requires n > 0
    ensures var r := ReadReply(info, false, false, tx, s);
      Prepend(outs, ReadElements(info, n, tx, s)) ==
      if r.Done? then Prepend(outs + [r.out], ReadElements(info, n - 1, r.tx, r.rest))
      else if r.Refused? then SeqRefused(r.text, r.rest, r.tx)
      else SeqClosed
  {
    hide ReadReply;
    var r := ReadReply(info, false, false, tx, s);
    if r.Done? {
      var more := ReadElements(info, n - 1, r.tx, r.rest);
      if more.AllDone? {
        assert outs + ([r.out] + more.outs) == outs + [r.out] + more.outs;
      }
    }
  }

  function PrependItems(items: seq<Option<Bytes>>, r: Option<(seq<Option<Bytes>>, Bytes)>)
    : Option<(seq<Option<Bytes>>, Bytes)>
  {
    match r case None => None case Some(p) => Some((items + p.0, p.1))
  }

  lemma PrependNoItems(r: Option<(seq<Option<Bytes>>, Bytes)>)
    ensures PrependItems([], r) == r
  {
    if r.Some? {
      assert [] + r.value.0 == r.value.0;
    }
  }

  lemma BulksStep(items: seq<Option<Bytes>>, item: Option<Bytes>, n: int, s: Bytes, rest: Bytes)
    requires n > 0 && ReadBulk(s) == Some((item, rest))
    ensures PrependItems(items, ReadBulks(n, s)) == PrependItems(items + [item], ReadBulks(n - 1, rest))
  {
    hide ReadBulk;
    var r := ReadBulks(n - 1, rest);
    if r.Some? {
      assert items + ([item] + r.value.0) == items + [item] + r.value.0;
    }
  }
}

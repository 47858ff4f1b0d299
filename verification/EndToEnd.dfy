// The whole stack at once: commands against a server, over any chunks and any kernel.
module EndToEnd {
  import opened Wire
  import opened Os
  import opened Resp
  import opened Request
  import opened ReplyTheory
  import opened RoundTrip
  import opened Links
  import opened Pipeline
  import opened Tcp
  import opened Protocol

  /**
   * However the reply is cut into chunks and whatever the kernel does with the write: the command
   * succeeds exactly when the kernel took its request and the reply is acceptable to it, then
   * holds that reply; an open connection has been sent exactly that request, and unless the reply
   * is one that loses framing it is at the next reply.
   */
  method Exchange(proto: RedisProtocol, cmd: RedisCommand, env: WriteEnv, ghost r: Reply, ghost rest: Bytes)
    returns (ok: bool)
    requires proto.Valid() && proto.View().open && proto.View().unread == Print(r) + rest
    requires InTable(cmd.info) && Sendable(r) && cmd.Value().CountOk()
    modifies proto.Repr(), cmd
    ensures proto.Valid()
    ensures ok <==> WriteCompletes(Encode([cmd.info.name] + cmd.args), env.events)
                    && Acceptable(cmd.info, old(proto.View()).tx, r)
    ensures proto.View().open ==> proto.View().sent == old(proto.View()).sent + Cut(Encode([cmd.info.name] + cmd.args))
    ensures ok ==> proto.View().open && ReplyOf(cmd.out) == r && proto.View().unread == rest
    ensures ok ==> proto.View().tx == ModeAfter(cmd.info.verb, old(proto.View()).tx)
    ensures !Desyncs(cmd.info, old(proto.View()).tx, r) ==> !proto.View().open || proto.View().unread == rest
  {
    hide *;
    ghost var l, out := proto.View(), cmd.out;
    ReplyRoundTrip(cmd.info, l.tx, r, rest);
    FramingSafety(cmd.info, l.tx, r, rest);
    FateOfOpen(cmd.Value(), env);
    ExecShape(l, cmd.Value(), out, WriteFate(l.open, cmd.Value(), env), rest);
    ValueOf(cmd);
    ok := proto.ExecCommand(cmd, env);
  }

  lemma ValueOf(cmd: RedisCommand)
    ensures cmd.Value().info == cmd.info
    ensures cmd.Value().Words() == [cmd.info.name] + cmd.args
    ensures cmd.Value().OnWire() == Cut(Encode([cmd.info.name] + cmd.args))
  {
  }

  lemma FateOfOpen(c: Cmd, env: WriteEnv)
    ensures WriteFate(true, c, env).AllSent? <==> WriteCompletes(Encode(c.Words()), env.events)
  {
  }

  lemma ExecShape(l: Link, c: Cmd, out: Output, w: Written, rest: Bytes)
    requires c.CountOk() && l.open
    ensures var e := ExecSpec(l, c, out, w);
      var p := ReadReply(c.info, true, true, l.tx, l.unread);
      && (w.Lost? ==> !e.ok && !e.link.open)
      && (w.AllSent? ==> e.ok == p.Done? && (e.link.open ==> e.link.sent == l.sent + c.OnWire()))
      && (w.AllSent? && p.Done? ==> e.out == p.out && e.link.unread == p.rest && e.link.tx == p.tx && e.link.open)
      && (w.AllSent? && AtBoundary(p, rest) ==> !e.link.open || e.link.unread == rest)
  {
    hide ReadReply;
    if w.Lost? {
      LostEndsClosed(l, c, out, w);
    }
  }

  /**
   * A pipeline against a deterministic in-order server: it succeeds exactly when the kernel takes
   * every request, every check passes and running the commands one by one would succeed; then
   * every command holds the output it would have had, the mode is the same, exactly the requests
   * were sent and no reply is left. Failed or not, it ends closed or with no reply outstanding to a
   * request it wrote, exactly unless it loses its place.
   */
  method PipelineExchange(proto: RedisProtocol, cmds: seq<RedisCommand>, envs: seq<WriteEnv>, probes: seq<bool>,
                          ghost server: Server, ghost history: seq<seq<Bytes>>)
    returns (ok: bool)
    requires proto.Valid() && proto.View().open && Honest(server) && Distinct(cmds)
    requires |envs| == |cmds| && |probes| == 2 * |cmds|
    requires proto.View().unread == PrintAll(Serve(server, history, Values(cmds)))
    modifies proto.Repr(), cmds
    ensures proto.Valid()
    ensures var q := OneByOne(Values(cmds), server, history, old(proto.View()).tx);
      && (ok <==> WritesPass(true, Values(cmds), Fates(true, cmds, envs), probes[..|cmds|])
                  && AllTrue(probes[|cmds|..]) && q.SeqDone?)
      && (ok ==> Outs(cmds) == q.outs)
      && (ok ==> proto.View() == WithRequests(old(proto.View()), Values(cmds), |cmds|).(unread := [], tx := q.tx))
    ensures var rs := Serve(server, history, Values(cmds));
      var k := Passed(Values(cmds), Fates(true, cmds, envs), probes[..|cmds|]);
      TableCmds(Values(cmds)) ==>
        (!proto.View().open || proto.View().unread == PrintAll(rs[k..]) <==>
         !PipeLosesPlace(old(proto.View()).tx, old(PipeOf(true, cmds, envs, probes)), rs))
  {
    hide PipeSpec, OneByOne, Serve, PrintAll, WritesPass, AllTrue, PipeLosesPlace, WithRequests, AllSendable, TableCmds,
         Fates, Values, Outs, RedisProtocol.View, RedisProtocol.Valid;
    ghost var l, p := proto.View(), PipeOf(true, cmds, envs, probes);
    ghost var rs := Serve(server, history, p.cmds);
    PipelineOutcome(l, p, server, history);
    ServedSendable(server, history, p.cmds);
    if TableCmds(p.cmds) {
      assert PrintAll(rs) + [] == PrintAll(rs);
      PipelineFraming(l, p, rs, []);
    }
    ok := proto.ExecPipeline(cmds, envs, probes);
    ghost var left := PrintAll(rs[Passed(p.cmds, p.ws, p.alive[..|cmds|])..]);
    assert left + [] == left;
  }
}

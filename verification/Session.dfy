/** The sender session over whole packet traces, whatever bytes arrive. */
module Session {
  import opened Bytes
  import opened Protocol
  import opened Receiver

  /** The receiver listens to this packet: it is a diode packet of this configuration, and not from an older sender. */
  predicate Heard(cfg: Config, st: State, mem: seq<Byte>, n: nat)
    requires n <= |mem|
  {
    && n >= HEADER_SIZE
    && HeaderAt(mem, 0).magic == MAGIC && HeaderAt(mem, 0).hash == cfg.hash
    && HeaderAt(mem, 0).startup >= st.startup
  }

  lemma {:induction false} ItemsKeepStartup(cfg: Config, st: State, mem: seq<Byte>, limit: nat, cur: Cursor, k: nat)
    ensures Items(cfg, st, mem, limit, cur, k).st.startup == st.startup
    ensures !cur.good ==> Items(cfg, st, mem, limit, cur, k).events == []
    decreases k
  {
    hide ChannelDataAt;
    if k > 0 {
      var c := cur.Ensure(CHANNEL_DATA_SIZE, limit);
      if c.good && c.pos + CHANNEL_DATA_SIZE <= |mem| {
        var it, at := ChannelDataAt(mem, c.pos), c.pos + CHANNEL_DATA_SIZE;
        var (st1, events) := Apply(cfg, st, it, mem, at);
        ItemsKeepStartup(cfg, st1, mem, limit, Cursor(Up8(at + DataSize(cfg, it)), true), k - 1);
      }
    }
  }

  lemma MessageKeepsStartup(cfg: Config, st: State, mem: seq<Byte>, limit: nat, cur: Cursor, id: Byte)
    ensures Message(cfg, st, mem, limit, cur, id).st.startup == st.startup
  {
    hide Items, FragInfoAt;
    if id == CA_DATA_MESSAGE {
      var c := cur.Ensure(DATA_MESSAGE_SIZE, limit);
      if c.good && c.pos + DATA_MESSAGE_SIZE <= |mem| {
        var (st1, ok) := Ordered(st, UintAt(mem, c.pos, 2));
        ItemsKeepStartup(cfg, st1, mem, limit, Cursor(c.pos + DATA_MESSAGE_SIZE, true), UintAt(mem, c.pos + 2, 2));
      }
    }
  }

  lemma {:induction false} SubmessagesKeepStartup(cfg: Config, st: State, mem: seq<Byte>, limit: nat, cur: Cursor)
    ensures Submessages(cfg, st, mem, limit, cur).st.startup == st.startup
    decreases |mem| - cur.pos
  {
    hide Message;
    var c := cur.Ensure(SUBMESSAGE_HEADER_SIZE, limit);
    if c.good && c.pos + SUBMESSAGE_HEADER_SIZE <= |mem| {
      var payload := c.pos + SUBMESSAGE_HEADER_SIZE;
      MessageKeepsStartup(cfg, st, mem, limit, Cursor(payload, true), mem[c.pos]);
      var o := Message(cfg, st, mem, limit, Cursor(payload, true), mem[c.pos]);
      SubmessagesKeepStartup(cfg, o.st, mem, limit, o.cur);
    }
  }

  /** One packet: a packet that is not heard changes nothing; one that is makes its sender the receiver's sender. */
  lemma PacketStep(cfg: Config, st: State, mem: seq<Byte>, n: nat)
    requires n <= |mem|
    ensures var o := Receive(cfg, st, mem, n);
            if Heard(cfg, st, mem, n) then o.st.startup == HeaderAt(mem, 0).startup >= st.startup
            else o.st == st && o.events == []
  {
    hide Submessages, HeaderAt;
    if Heard(cfg, st, mem, n) {
      SubmessagesKeepStartup(cfg, FromSender(st, HeaderAt(mem, 0).startup).0, mem, n, Cursor(HEADER_SIZE, true));
    }
  }

  /** A datagram of n bytes at the front of the receive buffer. */
  datatype Datagram = Datagram(mem: seq<Byte>, n: nat)

  /** The states that a receiver goes through while it receives some datagrams. */
  ghost predicate IsTrace(cfg: Config, states: seq<State>, grams: seq<Datagram>) {
    && |states| == |grams| + 1
    && forall i :: 0 <= i < |grams| ==>
         grams[i].n <= |grams[i].mem| && states[i + 1] == Receive(cfg, states[i], grams[i].mem, grams[i].n).st
  }

  lemma {:induction false} StartupNeverDecreases(cfg: Config, states: seq<State>, grams: seq<Datagram>, i: nat, j: nat)
    requires IsTrace(cfg, states, grams) && i <= j <= |grams|
    ensures states[i].startup <= states[j].startup
    decreases j
  {
    hide Receive, Heard;
    if i < j {
      StartupNeverDecreases(cfg, states, grams, i, j - 1);
      PacketStep(cfg, states[j - 1], grams[j - 1].mem, grams[j - 1].n);
      assert states[j - 1 + 1] == Receive(cfg, states[j - 1], grams[j - 1].mem, grams[j - 1].n).st;
    }
  }

  /**
   Session safety over whole traces: a packet that causes a callback carries the magic and this receiver's
   configuration hash, and no packet heard before it came from a sender that was started later.
   */
  lemma CallbacksFromNewestSender(cfg: Config, states: seq<State>, grams: seq<Datagram>, i: nat, j: nat)
    requires IsTrace(cfg, states, grams) && i <= j < |grams|
    requires Heard(cfg, states[i], grams[i].mem, grams[i].n)
    requires Receive(cfg, states[j], grams[j].mem, grams[j].n).events != []
    ensures Heard(cfg, states[j], grams[j].mem, grams[j].n)
    ensures HeaderAt(grams[j].mem, 0).startup >= HeaderAt(grams[i].mem, 0).startup
  {
    hide Receive, HeaderAt;
    PacketStep(cfg, states[i], grams[i].mem, grams[i].n);
    PacketStep(cfg, states[j], grams[j].mem, grams[j].n);
    if i < j {
      StartupNeverDecreases(cfg, states, grams, i + 1, j);
    }
  }

  /** The disabling of the hash check by a hash of 0, which the protocol document describes, is not implemented. */
  lemma ZeroHashIsChecked(cfg: Config, st: State, mem: seq<Byte>, n: nat)
    requires HEADER_SIZE <= n <= |mem| && HeaderAt(mem, 0).hash == 0 && cfg.hash != 0
    ensures Receive(cfg, st, mem, n).events == []
  {
    hide Submessages;
  }
}

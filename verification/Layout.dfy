/**
 The index layout that sender, receiver, IOC and database generator must agree on: every record gets an index,
 followed by its extra fields and then its polled fields. Records and their fields form contiguous groups.
 */
module Layout {
  import opened Bytes

  datatype ConfigChannel = ConfigChannel(name: string, extra: seq<string>, polled: seq<string>) {
    function Width(): nat { 1 + |extra| + |polled| }

    /** The name behind the j-th index of this record: the record, an extra field or a polled field. */
    function NameAt(j: nat): string
      requires j < Width()
    {
      if j == 0 then name
      else if j <= |extra| then name + "." + extra[j - 1]
      else name + "." + polled[j - 1 - |extra|]
    }
  }

  type Config = seq<ConfigChannel>

  /** A sender channel without its update bookkeeping; count -1 means that it is not connected. */
  datatype Channel = Channel(
    index: nat, parent: nat, polled: bool, typ: int, count: int, value: seq<Byte>, hash: Option<nat>)

  const TYPENOTCONN: int := -1

  function NewChannel(index: nat, parent: nat, polled: bool): Channel {
    Channel(index, parent, polled, TYPENOTCONN, -1, [], None)
  }

  // ---------------------------------------------------------------- indices

  /** documentation/design.rst: the index of the k-th record in closed form. */
  function RecordIndex(config: Config, k: nat): (i: nat)
    requires k <= |config|
  {
    if k == 0 then 0 else RecordIndex(config, k - 1) + |config[k - 1].extra| + |config[k - 1].polled| + 1
  }

  /** What index i stands for. */
  ghost predicate Names(config: Config, i: nat, k: nat, j: nat) {
    k < |config| && j < config[k].Width() && i == RecordIndex(config, k) + j
  }

  lemma {:induction false} RecordIndexMonotone(config: Config, k: nat, m: nat)
    requires k < m <= |config|
    ensures RecordIndex(config, k) + config[k].Width() <= RecordIndex(config, m)
  {
    if k + 1 < m {
      RecordIndexMonotone(config, k, m - 1);
    }
  }

  /** Every index below the total names one record or one field, and no two of them share an index. */
  lemma {:induction false} EveryIndexNamesOne(config: Config, n: nat, i: nat) returns (k: nat, j: nat)
    requires n <= |config| && i < RecordIndex(config, n)
    ensures Names(config, i, k, j)
    ensures forall k': nat, j': nat :: Names(config, i, k', j') ==> k' == k && j' == j
  {
    if i >= RecordIndex(config, n - 1) {
      k, j := n - 1, i - RecordIndex(config, n - 1);
    } else {
      k, j := EveryIndexNamesOne(config, n - 1, i);
    }
    forall k': nat, j': nat | Names(config, i, k', j') ensures k' == k && j' == j {
      if k' < k { RecordIndexMonotone(config, k', k); }
      if k < k' { RecordIndexMonotone(config, k, k'); }
    }
  }

  /** The names of record k and of its fields are where the closed form puts them. */
  ghost predicate RecordNamed(names: seq<string>, config: Config, k: nat)
    requires k < |config|
  {
    var at, c := RecordIndex(config, k), config[k];
    at + c.Width() <= |names| && forall j: nat :: j < c.Width() ==> names[at + j] == c.NameAt(j)
  }

  /** A list of names that agrees with the closed form on the first n records. */
  ghost predicate NamesAgree(names: seq<string>, config: Config, n: nat)
    requires n <= |config|
  {
    |names| == RecordIndex(config, n) && forall k: nat :: k < n ==> RecordNamed(names, config, k)
  }

  /** The names of before, followed by the first w names of record c. */
  ghost predicate Begun(names: seq<string>, before: seq<string>, c: ConfigChannel, w: nat) {
    && w <= c.Width() && |names| == |before| + w && names[..|before|] == before
    && forall j: nat :: j < w ==> names[|before| + j] == c.NameAt(j)
  }

  lemma BegunStep(names: seq<string>, before: seq<string>, c: ConfigChannel, w: nat)
    requires w < c.Width() && Begun(names, before, c, w)
    ensures Begun(names + [c.NameAt(w)], before, c, w + 1)
  {
    var names' := names + [c.NameAt(w)];
    assert names'[..|before|] == names[..|before|];
    forall j: nat | j < w + 1 ensures names'[|before| + j] == c.NameAt(j) {
      if j < w { assert names'[|before| + j] == names[|before| + j]; }
    }
  }

  lemma BegunDone(names: seq<string>, before: seq<string>, config: Config, n: nat)
    requires n < |config| && NamesAgree(before, config, n) && Begun(names, before, config[n], config[n].Width())
    ensures NamesAgree(names, config, n + 1)
  {
    forall k: nat | k < n + 1
      ensures RecordNamed(names, config, k)
    {
      if k < n {
        RecordIndexMonotone(config, k, n);
        assert RecordNamed(before, config, k);
        assert forall i :: 0 <= i < |before| ==> names[i] == names[..|before|][i];
      }
    }
  }

  /** Every element is its own index. */
  ghost predicate Identity(ids: seq<nat>) {
    forall i :: 0 <= i < |ids| ==> ids[i] == i
  }

  /** The look-up table holds names, each under its index. */
  ghost predicate Holds(lut: map<nat, string>, names: seq<string>) {
    && (forall i :: i in lut <==> 0 <= i < |names|)
    && (forall i :: 0 <= i < |names| ==> lut[i] == names[i])
  }

  method TotalChannelCount(config: Config) returns (result: nat)
    ensures result == RecordIndex(config, |config|)
  {
    result := 0;
    for n := 0 to |config|
      invariant result == RecordIndex(config, n)
    {
      result := result + (|config[n].extra| + |config[n].polled| + 1);
    }
  }

  method CreateFlatNames(config: Config) returns (names: seq<string>)
    ensures NamesAgree(names, config, |config|)
  {
    names := [];
    for n := 0 to |config|
      invariant NamesAgree(names, config, n)
    {
      var c := config[n];
      ghost var before := names;
      BegunStep(names, before, c, 0);
      names := names + [c.name];
      for j := 0 to |c.extra|
        invariant Begun(names, before, c, 1 + j)
      {
        BegunStep(names, before, c, 1 + j);
        names := names + [c.name + "." + c.extra[j]];
      }
      for j := 0 to |c.polled|
        invariant Begun(names, before, c, 1 + |c.extra| + j)
      {
        BegunStep(names, before, c, 1 + |c.extra| + j);
        names := names + [c.name + "." + c.polled[j]];
      }
      BegunDone(names, before, config, n);
    }
  }

  /** The receiver's channels: each carries its own index as its id. */
  method CreateReceiverChannels(config: Config) returns (ids: seq<nat>, names: seq<string>)
    ensures NamesAgree(names, config, |config|)
    ensures |ids| == |names| && Identity(ids)
  {
    ids, names := [], [];
    var current := 0;
    for n := 0 to |config|
      invariant NamesAgree(names, config, n)
      invariant current == |ids| == |names| && Identity(ids)
    {
      var c := config[n];
      ghost var before := names;
      BegunStep(names, before, c, 0);
      ids, names, current := ids + [current], names + [c.name], current + 1;
      for j := 0 to |c.extra|
        invariant current == |ids| == |names| && Identity(ids)
        invariant Begun(names, before, c, 1 + j)
      {
        BegunStep(names, before, c, 1 + j);
        ids, names, current := ids + [current], names + [c.name + "." + c.extra[j]], current + 1;
      }
      for j := 0 to |c.polled|
        invariant current == |ids| == |names| && Identity(ids)
        invariant Begun(names, before, c, 1 + |c.extra| + j)
      {
        BegunStep(names, before, c, 1 + |c.extra| + j);
        ids, names, current := ids + [current], names + [c.name + "." + c.polled[j]], current + 1;
      }
      BegunDone(names, before, config, n);
    }
  }

  /** The IOC's look-up table: what it assigns to an index is what the closed form puts there. */
  method AssignIndices(config: Config) returns (lut: map<nat, string>)
    ensures forall i :: i in lut <==> 0 <= i < RecordIndex(config, |config|)
    ensures forall i: nat, k: nat, j: nat :: Names(config, i, k, j) ==> i in lut && lut[i] == config[k].NameAt(j)
  {
    ghost var names: seq<string> := [];
    lut := map[];
    var index := 0;
    for n := 0 to |config|
      invariant NamesAgree(names, config, n) && index == |names| && Holds(lut, names)
    {
      var c := config[n];
      ghost var before := names;
      BegunStep(names, before, c, 0);
      names, lut, index := names + [c.name], lut[index := c.name], index + 1;
      for j := 0 to |c.extra|
        invariant index == |names| && Holds(lut, names) && Begun(names, before, c, 1 + j)
      {
        BegunStep(names, before, c, 1 + j);
        var s := c.name + "." + c.extra[j];
        names, lut, index := names + [s], lut[index := s], index + 1;
      }
      for j := 0 to |c.polled|
        invariant index == |names| && Holds(lut, names) && Begun(names, before, c, 1 + |c.extra| + j)
      {
        BegunStep(names, before, c, 1 + |c.extra| + j);
        var s := c.name + "." + c.polled[j];
        names, lut, index := names + [s], lut[index := s], index + 1;
      }
      BegunDone(names, before, config, n);
    }
    forall i: nat, k: nat, j: nat | Names(config, i, k, j) ensures i in lut && lut[i] == config[k].NameAt(j) {
      assert RecordNamed(names, config, k);
      assert names[i] == config[k].NameAt(j);
    }
  }

  /** The database generator visits records only; it skips over the indices of their fields. */
  method GeneratorIndices(config: Config) returns (indices: seq<nat>)
    ensures |indices| == |config|
    ensures forall k :: 0 <= k < |config| ==> indices[k] == RecordIndex(config, k)
  {
    indices := [];
    var index := 0;
    for n := 0 to |config|
      invariant index == RecordIndex(config, n) && |indices| == n
      invariant forall k :: 0 <= k < n ==> indices[k] == RecordIndex(config, k)
    {
      indices := indices + [index];
      index := index + (|config[n].extra| + |config[n].polled| + 1);
    }
  }

  // ---------------------------------------------------------------- sender channels and their groups

  /** Channel i is either a record, which is its own parent, or a field of the record of channel i - 1. */
  ghost predicate LaidAt(ch: seq<Channel>, i: nat)
    requires i < |ch|
  {
    && ch[i].index == i
    && (ch[i].parent == i || (i > 0 && ch[i].parent == ch[i - 1].parent))
  }

  ghost predicate WellLaid(ch: seq<Channel>) {
    forall i: nat :: i < |ch| ==> LaidAt(ch, i)
  }

  predicate IsRecord(ch: seq<Channel>, i: nat) {
    i < |ch| && ch[i].parent == i
  }

  /** The sender channels of the first n records: parents are exactly the record indices of the closed form. */
  ghost predicate ChannelsAgree(ch: seq<Channel>, config: Config, n: nat)
    requires n <= |config|
  {
    && |ch| == RecordIndex(config, n)
    && forall i: nat, k: nat, j: nat :: Names(config, i, k, j) && k < n ==>
         i < |ch| && ch[i] == NewChannel(i, RecordIndex(config, k), j > |config[k].extra|)
  }

  /** The first w channels of the record c at index p. */
  ghost predicate RecordAgrees(ch: seq<Channel>, c: ConfigChannel, p: nat, w: nat) {
    && |ch| == p + w
    && forall i {:trigger ch[i]} :: p <= i < p + w ==> ch[i] == NewChannel(i, p, i - p > |c.extra|)
  }

  lemma ChannelsAgreeStep(before: seq<Channel>, config: Config, n: nat, ch: seq<Channel>)
    requires n < |config| && ChannelsAgree(before, config, n) && WellLaid(before)
    requires |before| <= |ch| && ch[..|before|] == before
    requires RecordAgrees(ch, config[n], |before|, config[n].Width())
    ensures ChannelsAgree(ch, config, n + 1) && WellLaid(ch)
  {
    forall i: nat, k: nat, j: nat | Names(config, i, k, j) && k < n + 1
      ensures i < |ch| && ch[i] == NewChannel(i, RecordIndex(config, k), j > |config[k].extra|)
    {
      if k < n {
        RecordIndexMonotone(config, k, n);
        assert ch[i] == before[i];
      }
    }
    forall i: nat | i < |ch| ensures LaidAt(ch, i) {
      if i < |before| {
        assert LaidAt(before, i) && ch[i] == before[i];
        if i > 0 { assert ch[i - 1] == before[i - 1]; }
      }
    }
  }

  method CreateSenderChannels(config: Config) returns (ch: seq<Channel>)
    ensures WellLaid(ch) && ChannelsAgree(ch, config, |config|)
  {
    ch := [];
    var current := 0;
    for n := 0 to |config|
      invariant WellLaid(ch) && current == |ch| && ChannelsAgree(ch, config, n)
    {
      var c := config[n];
      var parent := current;
      ghost var before := ch;
      ch, current := ch + [NewChannel(current, parent, false)], current + 1;
      for j := 0 to |c.extra|
        invariant current == |ch| && parent <= |ch| && ch[..parent] == before
        invariant RecordAgrees(ch, c, parent, 1 + j)
      {
        ch, current := ch + [NewChannel(current, parent, false)], current + 1;
      }
      for j := 0 to |c.polled|
        invariant current == |ch| && parent <= |ch| && ch[..parent] == before
        invariant RecordAgrees(ch, c, parent, 1 + |c.extra| + j)
      {
        ch, current := ch + [NewChannel(current, parent, true)], current + 1;
      }
      ChannelsAgreeStep(before, config, n, ch);
    }
  }

  /** The last channel of the group of channel i, as ChannelGroup looks for it. */
  function GroupEnd(ch: seq<Channel>, i: nat): (e: nat)
    requires i < |ch|
    ensures i <= e < |ch|
    decreases |ch| - i
  {
    if i + 1 < |ch| && !(ch[i].parent < ch[i + 1].parent) then GroupEnd(ch, i + 1) else i
  }

  lemma {:induction false} ParentsAscend(ch: seq<Channel>, i: nat, j: nat)
    requires WellLaid(ch) && i <= j < |ch|
    ensures ch[i].parent <= ch[j].parent <= j
    decreases j
  {
    assert LaidAt(ch, j);
    if i < j {
      ParentsAscend(ch, i, j - 1);
    } else if i > 0 {
      ParentsAscend(ch, i - 1, i - 1);
    }
  }

  lemma {:induction false} ParentIsRecord(ch: seq<Channel>, i: nat)
    requires WellLaid(ch) && i < |ch|
    ensures IsRecord(ch, ch[i].parent) && ch[i].parent <= i
  {
    assert LaidAt(ch, i);
    if ch[i].parent != i {
      ParentIsRecord(ch, i - 1);
    }
  }

  /** A group holds exactly the channels that share a parent: groups partition the channels. */
  lemma {:induction false} GroupExact(ch: seq<Channel>, i: nat, j: nat)
    requires WellLaid(ch) && i < |ch| && j < |ch|
    ensures ch[j].parent == ch[i].parent <==> ch[i].parent <= j <= GroupEnd(ch, i)
    decreases |ch| - i
  {
    ParentIsRecord(ch, i);
    ParentIsRecord(ch, j);
    if j < i {
      ParentsAscend(ch, j, i);
      if ch[i].parent <= j {
        ParentsAscend(ch, ch[i].parent, j);
      }
    } else {
      ParentsAscend(ch, i, j);
      if i + 1 < |ch| {
        assert LaidAt(ch, i + 1);
        ParentsAscend(ch, i, i + 1);
        if ch[i].parent == ch[i + 1].parent {
          GroupExact(ch, i + 1, j);
        } else if i < j {
          ParentsAscend(ch, i + 1, j);
        }
      }
    }
  }

  /** ChannelGroup::end_channel_group_id */
  method EndOfGroup(ch: seq<Channel>, index: nat) returns (end: nat)
    requires index < |ch|
    ensures end == GroupEnd(ch, index)
  {
    for i := index to |ch| - 1
      invariant GroupEnd(ch, i) == GroupEnd(ch, index)
    {
      if ch[i].parent < ch[i + 1].parent {
        return i;
      }
    }
    return |ch| - 1;
  }
}

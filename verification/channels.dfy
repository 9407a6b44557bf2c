/** The channel record and the array operations the application performs
    on the channel list (`find`, `findIndex`, `some`, `splice`,
    `Object.assign`). */
module Channels {
  import opened Wrappers

  /** One saved recording source. The id is assigned once, from the clock,
      and never changes afterwards. */
  datatype Channel = Channel(id: string, name: string, host: string, path: string, useMp4: bool)

  /** The fields an update object carries; an absent field keeps its value,
      as with `Object.assign`. An update never carries an id. */
  datatype ChannelUpdate = ChannelUpdate(
    name: Option<string>,
    host: Option<string>,
    path: Option<string>,
    useMp4: Option<bool>)

  /** The ids of a channel list, in list order. */
  function Ids(chs: seq<Channel>): (r: seq<string>)
    ensures |r| == |chs|
    ensures forall i | 0 <= i < |chs| :: r[i] == chs[i].id
  {
    if chs == [] then [] else [chs[0].id] + Ids(chs[1..])
  }

  /** No two channels share an id. */
  predicate UniqueIds(chs: seq<Channel>) {
    forall i, j | 0 <= i < j < |chs| :: chs[i].id != chs[j].id
  }

  /** `findIndex(ch => ch.id === id)`: the first position holding the id. */
  function IndexOf(chs: seq<Channel>, id: string): (r: Option<nat>)
    ensures r.Some? ==> r.value < |chs| && chs[r.value].id == id
    ensures r.Some? ==> forall k | 0 <= k < r.value :: chs[k].id != id
    ensures r.None? <==> forall k | 0 <= k < |chs| :: chs[k].id != id
  {
    if chs == [] then None
    else if chs[0].id == id then Some(0)
    else
      match IndexOf(chs[1..], id)
      case None => None
      case Some(k) => Some(k + 1)
  }

  /** `find(ch => ch.id === id)`: the first channel holding the id. */
  function Find(chs: seq<Channel>, id: string): Option<Channel> {
    match IndexOf(chs, id)
    case Some(i) => Some(chs[i])
    case None => None
  }

  /** Find with a possibly absent id; an absent id finds nothing. */
  function FindOpt(chs: seq<Channel>, id: Option<string>): Option<Channel> {
    match id
    case Some(x) => Find(chs, x)
    case None => None
  }

  /** `some(ch => ch.name === name)`: an exact, case-sensitive match. */
  predicate HasName(chs: seq<Channel>, name: string) {
    exists i | 0 <= i < |chs| :: chs[i].name == name
  }

  /** `Object.assign(channel, updates)`. */
  function Apply(c: Channel, u: ChannelUpdate): (r: Channel)
    ensures r.id == c.id
    ensures u.name.None? ==> r.name == c.name
    ensures u.host.None? ==> r.host == c.host
    ensures u.path.None? ==> r.path == c.path
    ensures u.useMp4.None? ==> r.useMp4 == c.useMp4
    ensures u.name.Some? ==> r.name == u.name.value
    ensures u.host.Some? ==> r.host == u.host.value
    ensures u.path.Some? ==> r.path == u.path.value
    ensures u.useMp4.Some? ==> r.useMp4 == u.useMp4.value
  {
    Channel(c.id, u.name.GetOr(c.name), u.host.GetOr(c.host), u.path.GetOr(c.path), u.useMp4.GetOr(c.useMp4))
  }

  /** `splice(i, 1)`. */
  function RemoveAt(chs: seq<Channel>, i: nat): (r: seq<Channel>)
    requires i < |chs|
    ensures |r| == |chs| - 1
    ensures forall k | 0 <= k < i :: r[k] == chs[k]
    ensures forall k | i <= k < |r| :: r[k] == chs[k + 1]
  {
    chs[..i] + chs[i + 1..]
  }

  /** `splice(i, 1)` is the list without its i-th element, and as a bag
      it loses exactly that element. */
  lemma RemoveAtSplices(chs: seq<Channel>, i: nat)
    requires i < |chs|
    ensures RemoveAt(chs, i) == chs[..i] + chs[i + 1..]
    ensures multiset(RemoveAt(chs, i)) + multiset{chs[i]} == multiset(chs)
  {
    var r := RemoveAt(chs, i);
    assert r == chs[..i] + chs[i + 1..];
    assert chs == chs[..i] + [chs[i]] + chs[i + 1..];
  }

  /** With unique ids, the channel at any position is the one found by its id. */
  lemma FindUnique(chs: seq<Channel>, i: nat)
    requires UniqueIds(chs) && i < |chs|
    ensures Find(chs, chs[i].id) == Some(chs[i])
  {
    var j := IndexOf(chs, chs[i].id);
    assert j.Some?;
    assert j.value == i;
  }

  /** The first channel of a list is always the one found by its id. */
  lemma FindHead(chs: seq<Channel>)
    requires |chs| > 0
    ensures Find(chs, chs[0].id) == Some(chs[0])
  {
  }

  /** Find succeeds exactly for the ids on the list. */
  lemma FindSomeIff(chs: seq<Channel>, id: string)
    ensures Find(chs, id).Some? <==> id in Ids(chs)
    ensures Find(chs, id).Some? ==> Find(chs, id).value.id == id && Find(chs, id).value in chs
  {
    if id in Ids(chs) {
      var k :| 0 <= k < |Ids(chs)| && Ids(chs)[k] == id;
      assert chs[k].id == id;
    }
  }

  /** Removing a position keeps ids unique, and the removed id is then gone. */
  lemma RemoveAtUnique(chs: seq<Channel>, i: nat)
    requires UniqueIds(chs) && i < |chs|
    ensures UniqueIds(RemoveAt(chs, i))
    ensures chs[i].id !in Ids(RemoveAt(chs, i))
  {
    var r := RemoveAt(chs, i);
    forall a, b | 0 <= a < b < |r| ensures r[a].id != r[b].id {
      var a' := if a < i then a else a + 1;
      var b' := if b < i then b else b + 1;
      assert r[a] == chs[a'] && r[b] == chs[b'];
    }
    forall k | 0 <= k < |r| ensures Ids(r)[k] != chs[i].id {
      var k' := if k < i then k else k + 1;
      assert r[k] == chs[k'];
    }
  }

  /** Removing one position leaves the search for any other id unchanged. */
  lemma FindAfterRemoveOther(chs: seq<Channel>, i: nat, id: string)
    requires i < |chs| && chs[i].id != id
    ensures Find(RemoveAt(chs, i), id) == Find(chs, id)
  {
    var r := RemoveAt(chs, i);
    match IndexOf(chs, id)
    case None =>
      forall k | 0 <= k < |r| ensures r[k].id != id {
        var k' := if k < i then k else k + 1;
        assert r[k] == chs[k'];
      }
    case Some(j) =>
      var j' := if j < i then j else j - 1;
      assert r[j'] == chs[j];
      forall k | 0 <= k < j' ensures r[k].id != id {
        var k' := if k < i then k else k + 1;
        assert r[k] == chs[k'];
      }
      assert IndexOf(r, id) == Some(j');
  }

  /** Replacing a channel by one with the same id leaves the position of
      every id unchanged. */
  lemma IndexOfAfterReplace(chs: seq<Channel>, i: nat, c: Channel, id: string)
    requires i < |chs| && c.id == chs[i].id
    ensures IndexOf(chs[i := c], id) == IndexOf(chs, id)
  {
    var r := chs[i := c];
    assert forall k | 0 <= k < |chs| :: r[k].id == chs[k].id;
    match IndexOf(chs, id)
    case None =>
    case Some(j) =>
      assert IndexOf(r, id).Some?;
  }

  /** Appending keeps every earlier search result. */
  lemma FindAfterAppend(chs: seq<Channel>, c: Channel, id: string)
    requires Find(chs, id).Some? || c.id != id
    ensures Find(chs + [c], id) == Find(chs, id)
  {
    var r := chs + [c];
    assert forall k | 0 <= k < |chs| :: r[k] == chs[k];
    match IndexOf(chs, id)
    case None =>
      assert IndexOf(r, id).None?;
    case Some(j) =>
      assert IndexOf(r, id).Some?;
  }

  /** Appending a channel with a fresh id keeps ids unique. */
  lemma AppendUnique(chs: seq<Channel>, c: Channel)
    requires UniqueIds(chs) && c.id !in Ids(chs)
    ensures UniqueIds(chs + [c])
  {
    var r := chs + [c];
    forall a, b | 0 <= a < b < |r| ensures r[a].id != r[b].id {
      if b == |chs| {
        assert Ids(chs)[a] == chs[a].id;
      }
    }
  }
}

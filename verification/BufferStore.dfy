/** Named copy buffers with least-recently-set eviction and a sequence counter that is renumbered at its limit. */
module BufferStore {
  import opened Prelude

  type Text = seq<bv8>

  const MAX_BUFFERS := 100
  const MAX_BYTES := 16 * 1024 * 1024
  const U64_MAX: nat := 0xFFFF_FFFF_FFFF_FFFF

  datatype Entry = Entry(text: Text, createdAt: nat)

  // ----- the store as a recency list of names -----

  /** Where a name stands in a list that has it. */
  ghost function Place<Name>(names: seq<Name>, name: Name): (k: nat)
    requires name in names
    ensures k < |names| && names[k] == name
  {
    var k :| 0 <= k < |names| && names[k] == name;
    k
  }

  /** The index in the longer list of what stands at `i` once place `k` is cut out. */
  function Skip(i: nat, k: nat): nat { if i < k then i else i + 1 }

  ghost function Cut<Name>(names: seq<Name>, k: nat): seq<Name>
    requires k < |names|
  {
    seq(|names| - 1, i requires 0 <= i < |names| - 1 => names[Skip(i, k)])
  }

  ghost function Without<Name>(names: seq<Name>, name: Name): seq<Name> {
    if name in names then Cut(names, Place(names, name)) else names
  }

  /** The list once there is room for a name: a new one in a full store pushes out the head. */
  ghost function Room<Name>(names: seq<Name>, name: Name): seq<Name> {
    if name !in names && |names| >= MAX_BUFFERS then names[1..] else names
  }

  /** Setting a name moves it to the end. */
  ghost function Touch<Name>(names: seq<Name>, name: Name): seq<Name> {
    if name in names then Without(names, name) + [name] else Room(names, name) + [name]
  }

  /** `order` lists the stored names by increasing sequence number, all of them below `limit`. */
  ghost predicate InOrder<Name>(order: seq<Name>, buffers: map<Name, Entry>, limit: nat) {
    && (forall name :: name in buffers ==> name in order)
    && (forall i :: 0 <= i < |order| ==> order[i] in buffers && buffers[order[i]].createdAt < limit)
    && (forall i, j :: 0 <= i < j < |order| ==> buffers[order[i]].createdAt < buffers[order[j]].createdAt)
  }

  /** The same buffers with the same texts, whatever their sequence numbers. */
  ghost predicate SameTexts<Name>(a: map<Name, Entry>, b: map<Name, Entry>) {
    a.Keys == b.Keys && forall name :: name in a ==> a[name].text == b[name].text
  }

  ghost predicate TextsAmong<Name>(after: map<Name, Entry>, before: map<Name, Entry>) {
    forall name :: name in after ==> name in before && after[name].text == before[name].text
  }

  /** One name has this text; every other stored name keeps the text it had. */
  ghost predicate AddsText<Name>(after: map<Name, Entry>, before: map<Name, Entry>, name: Name, text: Text) {
    && name in after && after[name].text == text
    && forall n :: n in after && n != name ==> n in before && after[n].text == before[n].text
  }

  // ----- the store as a value -----

  /** The stored names, least recently set first, and their texts. */
  datatype Contents<Name> = Contents(order: seq<Name>, texts: map<Name, Text>)

  ghost function AfterSet<Name>(c: Contents<Name>, name: Name, text: Text): Contents<Name> {
    var order := Touch(c.order, name);
    Contents(order, (map n | n in c.texts && n in order :: c.texts[n])[name := text])
  }

  ghost function AfterDelete<Name>(c: Contents<Name>, name: Name): Contents<Name> {
    Contents(Without(c.order, name), c.texts - {name})
  }

  ghost function Texts<Name>(buffers: map<Name, Entry>): map<Name, Text> {
    map name | name in buffers :: buffers[name].text
  }

  // ----- the store as it is updated in place -----

  /** Names are strings; the store only ever compares them for equality. */
  class BufferStore<Name(==)> {
    var buffers: map<Name, Entry>
    var nextSeq: nat
    ghost var order: seq<Name>

    ghost predicate Valid()
      reads this
    {
      InOrder(order, buffers, nextSeq) && |order| <= MAX_BUFFERS && nextSeq <= U64_MAX
    }

    ghost function View(): Contents<Name>
      reads this
    {
      Contents(order, Texts(buffers))
    }

    constructor ()
      ensures Valid() && order == []
    {
      buffers, nextSeq, order := map[], 0, [];
    }

    /** The name with the smallest sequence number among some of the buffers. */
    method Oldest(names: set<Name>) returns (oldest: Name)
      requires names != {} && names <= buffers.Keys
      ensures oldest in names && forall name :: name in names ==> buffers[oldest].createdAt <= buffers[name].createdAt
    {
      oldest :| oldest in names;
      var rest := names - {oldest};
      while rest != {}
        invariant rest <= names && oldest in names
        invariant forall name :: name in names - rest ==> buffers[oldest].createdAt <= buffers[name].createdAt
        decreases |rest|
      {
        var name :| name in rest;
        rest := rest - {name};
        if buffers[name].createdAt < buffers[oldest].createdAt {
          oldest := name;
        }
      }
    }

    /** All the names, sorted by sequence number. */
    method Sorted() returns (names: seq<Name>)
      requires Valid()
      ensures names == order
    {
      names := [];
      var rest := buffers.Keys;
      CountNames(order, buffers, nextSeq);
      while rest != {}
        invariant |names| + |rest| == |order| && rest <= buffers.Keys
        invariant forall j :: 0 <= j < |names| ==> names[j] == order[j]
        invariant forall j :: 0 <= j < |order| ==> (order[j] in rest <==> |names| <= j)
        decreases |rest|
      {
        var name := Oldest(rest);
        OldestIsNext(order, buffers, nextSeq, |names|, rest, name);
        rest := rest - {name};
        names := names + [name];
      }
    }

    /** Numbers the buffers 0, 1, 2, ... in their present order. */
    method Renumber()
      requires Valid()
      modifies this`buffers, this`nextSeq
      ensures Valid() && nextSeq == |order|
      ensures SameTexts(buffers, old(buffers))
    {
      var names := Sorted();
      OrderIsDistinct(order, buffers, nextSeq);
      ghost var before := buffers;
      buffers := Numbered(names, buffers);
      Renumbered(names, before, buffers);
      nextSeq := |names|;
    }

    /** Gives each entry its place in the list as its sequence number. */
    static method Numbered(names: seq<Name>, entries: map<Name, Entry>) returns (numbered: map<Name, Entry>)
      requires Distinct(names)
      requires forall k :: 0 <= k < |names| ==> names[k] in entries
      ensures numbered.Keys == entries.Keys
      ensures forall k :: 0 <= k < |names| ==> numbered[names[k]] == entries[names[k]].(createdAt := k)
    {
      numbered := entries;
      for i := 0 to |names|
        invariant numbered.Keys == entries.Keys
        invariant forall k :: 0 <= k < i ==> numbered[names[k]] == entries[names[k]].(createdAt := k)
        invariant forall k :: i <= k < |names| ==> numbered[names[k]] == entries[names[k]]
      {
        numbered := numbered[names[i] := numbered[names[i]].(createdAt := i)];
      }
    }

    method NextSeq() returns (seqNo: nat)
      requires Valid()
      modifies this`buffers, this`nextSeq
      ensures Valid() && InOrder(order, buffers, seqNo) && nextSeq == seqNo + 1
      ensures SameTexts(buffers, old(buffers))
    {
      if nextSeq == U64_MAX {
        Renumber();
      }
      seqNo := nextSeq;
      nextSeq := nextSeq + 1;
    }

    /** Drops the buffer set longest ago, if there is any. */
    method EvictOldest(ghost limit: nat)
      requires InOrder(order, buffers, limit)
      modifies this`buffers, this`order
      ensures InOrder(order, buffers, limit)
      ensures order == if old(order) == [] then [] else old(order)[1..]
      ensures buffers == if old(order) == [] then old(buffers) else old(buffers) - {old(order)[0]}
    {
      EmptyTogether(order, buffers, limit);
      if buffers.Keys == {} {
        return;
      }
      var oldest := Oldest(buffers.Keys);
      HeadIsOldest(order, buffers, limit, oldest);
      buffers := buffers - {oldest};
      order := order[1..];
    }

    /** Evicts only for a new name in a full store. */
    method MakeRoom(name: Name, ghost limit: nat)
      requires InOrder(order, buffers, limit)
      modifies this`buffers, this`order
      ensures InOrder(order, buffers, limit) && order == Room(old(order), name)
      ensures TextsAmong(buffers, old(buffers))
    {
      CountNames(order, buffers, limit);
      NamesListed(order, buffers, limit, name);
      if name !in buffers && |buffers| >= MAX_BUFFERS {
        EvictOldest(limit);
      }
    }

    /** Sets a buffer; only an oversized text is refused. */
    method Set(name: Name, text: Text) returns (ok: bool)
      requires Valid()
      modifies this
      ensures Valid() && ok == (|text| <= 0x100_0000)
      ensures order == if ok then Touch(old(order), name) else old(order)
      ensures if ok then AddsText(buffers, old(buffers), name, text) else buffers == old(buffers)
      ensures View() == if ok then AfterSet(old(View()), name, text) else old(View())
    {
      if |text| > MAX_BYTES {
        return false;
      }
      ghost var (order0, buffers0) := (order, buffers);
      var seqNo := NextSeq();
      MakeRoom(name, seqNo);
      TouchMakesRoom(order0, name);
      SetInOrder(order, buffers, seqNo, name, text);
      assert TextsAmong(buffers, buffers0);
      order := Without(order, name) + [name];
      buffers := buffers[name := Entry(text, seqNo)];
      SetView(order0, buffers0, order, buffers, nextSeq, name, text);
      return true;
    }

    method Delete(name: Name) returns (removed: Option<Entry>)
      requires Valid()
      modifies this`buffers, this`order
      ensures Valid() && order == Without(old(order), name) && buffers == old(buffers) - {name}
      ensures removed == if name in old(buffers) then Some(old(buffers)[name]) else None
      ensures View() == AfterDelete(old(View()), name)
    {
      removed := if name in buffers then Some(buffers[name]) else None;
      LeaveOut(order, buffers, nextSeq, name);
      order := Without(order, name);
      buffers := buffers - {name};
      assert Texts(buffers) == Texts(old(buffers)) - {name};
    }
  }

  // ----- keeping the order -----

  lemma OrderIsDistinct<Name>(order: seq<Name>, buffers: map<Name, Entry>, limit: nat)
    requires InOrder(order, buffers, limit)
    ensures Distinct(order)
  {
  }

  lemma OldestIsNext<Name>(order: seq<Name>, buffers: map<Name, Entry>, limit: nat, n: nat, rest: set<Name>, name: Name)
    requires InOrder(order, buffers, limit) && rest <= buffers.Keys && name in rest
    requires forall j :: 0 <= j < |order| ==> (order[j] in rest <==> n <= j)
    requires forall x :: x in rest ==> buffers[name].createdAt <= buffers[x].createdAt
    ensures n < |order| && name == order[n]
  {
    var j :| 0 <= j < |order| && order[j] == name;
    assert order[n] in rest;
  }

  lemma EmptyTogether<Name>(order: seq<Name>, buffers: map<Name, Entry>, limit: nat)
    requires InOrder(order, buffers, limit)
    ensures order == [] <==> buffers.Keys == {}
  {
    assert order != [] ==> order[0] in buffers;
  }

  /** The buffer with the smallest number heads the list, and without it the rest is in order. */
  lemma HeadIsOldest<Name>(order: seq<Name>, buffers: map<Name, Entry>, limit: nat, oldest: Name)
    requires InOrder(order, buffers, limit) && oldest in buffers
    requires forall x :: x in buffers ==> buffers[oldest].createdAt <= buffers[x].createdAt
    ensures order != [] && oldest == order[0]
    ensures InOrder(order[1..], buffers - {oldest}, limit)
  {
    OldestIsNext(order, buffers, limit, 0, buffers.Keys, oldest);
    RemoveAt(order, buffers, limit, 0);
    assert Cut(order, 0) == order[1..];
  }

  lemma CutListsOthers<Name>(order: seq<Name>, buffers: map<Name, Entry>, limit: nat, k: nat)
    requires InOrder(order, buffers, limit) && k < |order|
    ensures forall x :: x in buffers && x != order[k] ==> x in Cut(order, k)
    ensures forall i :: 0 <= i < |order| - 1 ==> Cut(order, k)[i] in buffers && Cut(order, k)[i] != order[k]
  {
    var cut := Cut(order, k);
    forall x | x in buffers && x != order[k] ensures x in cut {
      var i :| 0 <= i < |order| && order[i] == x;
      var j := if i < k then i else i - 1;
      assert cut[j] == order[Skip(j, k)];
    }
    forall i | 0 <= i < |cut| ensures cut[i] in buffers && cut[i] != order[k] {
      assert cut[i] == order[Skip(i, k)];
    }
  }

  lemma CutStaysSorted<Name>(order: seq<Name>, buffers: map<Name, Entry>, limit: nat, k: nat, i: nat, j: nat)
    requires InOrder(order, buffers, limit) && k < |order| && i < j < |order| - 1
    ensures var (x, y) := (Cut(order, k)[i], Cut(order, k)[j]);
            x in buffers && y in buffers && buffers[x].createdAt < buffers[y].createdAt
  {
    var cut := Cut(order, k);
    assert cut[i] == order[Skip(i, k)] && cut[j] == order[Skip(j, k)] && Skip(i, k) < Skip(j, k);
  }

  lemma RemoveAt<Name>(order: seq<Name>, buffers: map<Name, Entry>, limit: nat, k: nat)
    requires InOrder(order, buffers, limit) && k < |order|
    ensures InOrder(Cut(order, k), buffers - {order[k]}, limit)
  {
    var cut := Cut(order, k);
    CutListsOthers(order, buffers, limit, k);
    forall i | 0 <= i < |cut| ensures buffers[cut[i]].createdAt < limit {
      assert cut[i] == order[Skip(i, k)];
    }
    forall i, j | 0 <= i < j < |cut| ensures buffers[cut[i]].createdAt < buffers[cut[j]].createdAt {
      CutStaysSorted(order, buffers, limit, k, i, j);
    }
  }

  /** Leaving one name out of the list and of the map. */
  lemma LeaveOut<Name>(order: seq<Name>, buffers: map<Name, Entry>, limit: nat, name: Name)
    requires InOrder(order, buffers, limit)
    ensures InOrder(Without(order, name), buffers - {name}, limit)
  {
    if name in order {
      RemoveAt(order, buffers, limit, Place(order, name));
    } else {
      assert name !in buffers;
      assert buffers - {name} == buffers;
    }
  }

  lemma AppendLast<Name>(order: seq<Name>, buffers: map<Name, Entry>, seqNo: nat, name: Name, text: Text)
    requires InOrder(order, buffers, seqNo) && name !in buffers
    ensures InOrder(order + [name], buffers[name := Entry(text, seqNo)], seqNo + 1)
  {
    var longer := order + [name];
    assert longer[|order|] == name;
    forall x | x in buffers ensures x in longer {
      var i :| 0 <= i < |order| && order[i] == x;
      assert longer[i] == x;
    }
    forall i | 0 <= i < |order| ensures longer[i] == order[i] && order[i] != name {
      assert order[i] in buffers;
    }
  }

  /** Setting a name moves it to the end with the next sequence number. */
  lemma SetInOrder<Name>(order: seq<Name>, buffers: map<Name, Entry>, seqNo: nat, name: Name, text: Text)
    requires InOrder(order, buffers, seqNo)
    ensures InOrder(Without(order, name) + [name], buffers[name := Entry(text, seqNo)], seqNo + 1)
  {
    LeaveOut(order, buffers, seqNo, name);
    AppendLast(Without(order, name), buffers - {name}, seqNo, name, text);
    assert buffers[name := Entry(text, seqNo)] == (buffers - {name})[name := Entry(text, seqNo)];
  }

  lemma NamesListed<Name>(order: seq<Name>, buffers: map<Name, Entry>, limit: nat, name: Name)
    requires InOrder(order, buffers, limit)
    ensures name in buffers <==> name in order
  {
  }

  /** Making room first and then moving the name to the end is touching it. */
  lemma TouchMakesRoom<Name>(order: seq<Name>, name: Name)
    ensures Without(Room(order, name), name) + [name] == Touch(order, name)
    ensures |order| <= MAX_BUFFERS ==> |Touch(order, name)| <= MAX_BUFFERS
  {
    if name !in order && |order| >= MAX_BUFFERS {
      assert name !in order[1..];
    }
  }

  /** What a set does to names and texts determines the contents. */
  lemma SetView<Name>(order: seq<Name>, buffers: map<Name, Entry>, after: seq<Name>, next: map<Name, Entry>, limit: nat,
                      name: Name, text: Text)
    requires after == Touch(order, name) && InOrder(after, next, limit) && AddsText(next, buffers, name, text)
    ensures Contents(after, Texts(next)) == AfterSet(Contents(order, Texts(buffers)), name, text)
  {
    var texts := AfterSet(Contents(order, Texts(buffers)), name, text).texts;
    forall n ensures n in Texts(next) <==> n in texts {
      NamesListed(after, next, limit, n);
    }
  }

  lemma Renumbered<Name>(names: seq<Name>, before: map<Name, Entry>, after: map<Name, Entry>)
    requires forall name :: name in before ==> name in names
    requires after.Keys == before.Keys
    requires forall k :: 0 <= k < |names| ==> names[k] in before && after[names[k]] == before[names[k]].(createdAt := k)
    ensures InOrder(names, after, |names|) && SameTexts(after, before)
  {
    forall name | name in after ensures after[name].text == before[name].text {
      var k :| 0 <= k < |names| && names[k] == name;
    }
  }

  lemma CountNames<Name>(order: seq<Name>, buffers: map<Name, Entry>, limit: nat)
    requires InOrder(order, buffers, limit)
    ensures |buffers| == |order| && |buffers.Keys| == |order|
  {
    OrderIsDistinct(order, buffers, limit);
    CountDistinct(order);
    assert buffers.Keys == Elems(order);
    assert |buffers| == |buffers.Keys|;
  }

  // ----- leaving a name out -----

  lemma PlaceIs<Name>(s: seq<Name>, k: nat)
    requires Distinct(s) && k < |s|
    ensures Place(s, s[k]) == k
  {
  }

  lemma WithoutDistinct<Name>(s: seq<Name>, name: Name)
    requires Distinct(s)
    ensures Distinct(Without(s, name) + [name])
  {
    var r := Without(s, name);
    if name in s {
      var k := Place(s, name);
      forall i | 0 <= i < |r| ensures r[i] != name {
      }
    }
  }

  // ----- setting a name again -----

  /** Setting a stored name again drops no name. */
  lemma OverwriteDropsNone<Name>(names: seq<Name>, name: Name)
    requires Distinct(names) && name in names
    ensures |Touch(names, name)| == |names| && Elems(Touch(names, name)) == Elems(names)
  {
    WithoutNames(names, name);
  }

  /** It keeps its place in the list exactly when it was the one set last. */
  lemma OverwriteKeepsPlace<Name>(names: seq<Name>, name: Name)
    requires Distinct(names) && name in names
    ensures Touch(names, name) == names <==> names[|names| - 1] == name
  {
    var k := Place(names, name);
    PlaceIs(names, |names| - 1);
    var after := Touch(names, name);
    assert after[|names| - 1] == name;
    if names[|names| - 1] == name {
      forall i | 0 <= i < |names| ensures after[i] == names[i] {
      }
    }
  }

  /** Otherwise it moves to the end: of two names, setting the older one again makes the other the oldest. */
  lemma OverwriteMovesToEnd<Name>(older: Name, newer: Name)
    requires older != newer
    ensures Touch([older, newer], older) == [newer, older]
  {
    PlaceIs([older, newer], 0);
    assert [older, newer][0] == older;
    assert Cut([older, newer], 0) == [newer];
  }

  // ----- what the list means -----

  datatype Op<Name> = Put(name: Name, text: Text) | Drop(name: Name)

  /** The contents after these operations in turn. */
  ghost function Stored<Name>(ops: seq<Op<Name>>): Contents<Name> {
    if ops == [] then Contents([], map[])
    else
      var before := Stored(ops[..|ops| - 1]);
      match ops[|ops| - 1]
      case Put(name, text) => AfterSet(before, name, text)
      case Drop(name) => AfterDelete(before, name)
  }

  /** Every name set and not deleted since, in the order of its last setting, without any limit. */
  ghost function ByLastUse<Name>(ops: seq<Op<Name>>): seq<Name> {
    if ops == [] then []
    else
      var before := ByLastUse(ops[..|ops| - 1]);
      match ops[|ops| - 1]
      case Put(name, _) => Without(before, name) + [name]
      case Drop(name) => Without(before, name)
  }

  /** The text a name was last set to, unless it was deleted since. */
  ghost function LastText<Name>(ops: seq<Op<Name>>, name: Name): Option<Text> {
    if ops == [] then None
    else
      var op := ops[|ops| - 1];
      if op.name != name then LastText(ops[..|ops| - 1], name)
      else if op.Put? then Some(op.text) else None
  }

  function Last<Name>(s: seq<Name>, n: nat): seq<Name> {
    s[SatSub(|s|, n)..]
  }

  /** `kept` is the end of `all`, and no longer than the limit. */
  ghost predicate IsTail<Name>(kept: seq<Name>, all: seq<Name>) {
    Distinct(all) && |kept| <= |all| && |kept| <= MAX_BUFFERS && kept == all[|all| - |kept|..]
  }

  lemma {:induction false} KeepsOrder<Name>(ops: seq<Op<Name>>)
    ensures IsTail(Stored(ops).order, ByLastUse(ops))
    ensures (forall i :: 0 <= i < |ops| ==> ops[i].Put?) ==> |Stored(ops).order| == Min(|ByLastUse(ops)|, 100)
  {
    if ops != [] {
      var before := ops[..|ops| - 1];
      KeepsOrder(before);
      match ops[|ops| - 1]
      case Put(name, _) => TailAfterSet(ByLastUse(before), Stored(before).order, name);
      case Drop(name) => TailAfterDelete(ByLastUse(before), Stored(before).order, name);
    }
  }

  /** The texts belong to the listed names, and are the last ones set. */
  ghost predicate TextsAreLast<Name>(c: Contents<Name>, ops: seq<Op<Name>>) {
    && c.texts.Keys == Elems(c.order)
    && (forall name :: name in c.texts ==> LastText(ops, name) == Some(c.texts[name]))
  }

  lemma SetKeepsTexts<Name>(c: Contents<Name>, ops: seq<Op<Name>>, name: Name, text: Text)
    requires Distinct(c.order) && TextsAreLast(c, ops)
    ensures TextsAreLast(AfterSet(c, name, text), ops + [Put(name, text)])
  {
    var (next, longer) := (AfterSet(c, name, text), ops + [Put(name, text)]);
    assert longer[..|longer| - 1] == ops;
    TouchNames(c.order, name);
    forall n ensures n in next.texts <==> n in Elems(next.order) {
      assert n in c.texts <==> n in Elems(c.order);
    }
  }

  lemma DeleteKeepsTexts<Name>(c: Contents<Name>, ops: seq<Op<Name>>, name: Name)
    requires Distinct(c.order) && TextsAreLast(c, ops)
    ensures TextsAreLast(AfterDelete(c, name), ops + [Drop(name)])
  {
    var (next, longer) := (AfterDelete(c, name), ops + [Drop(name)]);
    assert longer[..|longer| - 1] == ops;
    WithoutNames(c.order, name);
    forall n ensures n in next.texts <==> n in Elems(next.order) {
      assert n in c.texts <==> n in Elems(c.order);
    }
  }

  lemma {:induction false} KeepsTexts<Name>(ops: seq<Op<Name>>)
    ensures TextsAreLast(Stored(ops), ops)
  {
    if ops != [] {
      var before := ops[..|ops| - 1];
      KeepsTexts(before);
      KeepsOrder(before);
      TailIsDistinct(Stored(before).order, ByLastUse(before));
      assert ops == before + [ops[|ops| - 1]];
      match ops[|ops| - 1]
      case Put(name, text) => SetKeepsTexts(Stored(before), before, name, text);
      case Drop(name) => DeleteKeepsTexts(Stored(before), before, name);
    }
  }

  lemma TailIsDistinct<Name>(kept: seq<Name>, all: seq<Name>)
    requires IsTail(kept, all)
    ensures Distinct(kept)
  {
  }

  /**
   * The store keeps the most recent names: whatever is set and deleted in whatever order, the stored names are the
   * last of all names set and not deleted, in the order of their last setting, each with the text it was last set to;
   * and as long as nothing is deleted they are the last hundred.
   */
  lemma {:induction false} KeepsMostRecent<Name>(ops: seq<Op<Name>>)
    ensures IsTail(Stored(ops).order, ByLastUse(ops))
    ensures Stored(ops).texts.Keys == Elems(Stored(ops).order)
    ensures forall name :: name in Stored(ops).texts ==> LastText(ops, name) == Some(Stored(ops).texts[name])
    ensures (forall i :: 0 <= i < |ops| ==> ops[i].Put?) ==> Stored(ops).order == Last(ByLastUse(ops), 100)
  {
    KeepsOrder(ops);
    KeepsTexts(ops);
  }

  /** The names after leaving one out of a list without repetitions. */
  lemma WithoutNames<Name>(s: seq<Name>, name: Name)
    requires Distinct(s)
    ensures forall x :: x in Without(s, name) <==> x in s && x != name
  {
    var r := Without(s, name);
    if name in s {
      var k := Place(s, name);
      forall x ensures x in r <==> x in s && x != name {
        if x in s && x != name {
          var i := Place(s, x);
          assert r[if i < k then i else i - 1] == x;
        }
      }
    }
  }

  /** Touching adds no other name. */
  lemma TouchNames<Name>(s: seq<Name>, name: Name)
    requires Distinct(s)
    ensures name in Touch(s, name) && forall x :: x in Touch(s, name) && x != name ==> x in s
  {
    var r := Touch(s, name);
    assert r[|r| - 1] == name;
    WithoutNames(s, name);
    forall x | x in r && x != name ensures x in s {
    }
  }

  lemma DropSnoc<Name>(s: seq<Name>, start: nat, name: Name)
    requires start <= |s|
    ensures (s + [name])[start..] == s[start..] + [name]
  {
  }

  /** Cutting within the last part of a list cuts that part. */
  lemma {:induction false} CutRecent<Name>(all: seq<Name>, k: nat, start: nat)
    requires Distinct(all) && start <= k < |all|
    ensures all[k] in all[start..] && Without(all[start..], all[k]) == Cut(all, k)[start..]
  {
    var kept := all[start..];
    assert kept[k - start] == all[k];
    PlaceIs(kept, k - start);
    var (a, b) := (Cut(kept, k - start), Cut(all, k)[start..]);
    forall i | 0 <= i < |kept| - 1 ensures a[i] == b[i] {
      assert a[i] == kept[Skip(i, k - start)] && b[i] == all[Skip(start + i, k)];
    }
  }

  /** Cutting before the last part leaves that part alone. */
  lemma CutForgotten<Name>(all: seq<Name>, k: nat, start: nat)
    requires Distinct(all) && k < start <= |all|
    ensures all[k] !in all[start..] && Cut(all, k)[start - 1..] == all[start..]
  {
    var (a, b) := (Cut(all, k)[start - 1..], all[start..]);
    forall i | 0 <= i < |all| - start ensures a[i] == b[i] {
      assert a[i] == all[Skip(start - 1 + i, k)];
    }
  }

  lemma TailAfterDelete<Name>(all: seq<Name>, kept: seq<Name>, name: Name)
    requires IsTail(kept, all)
    ensures IsTail(Without(kept, name), Without(all, name))
  {
    var start := |all| - |kept|;
    WithoutDistinct(all, name);
    var shorter := Without(all, name);
    assert forall i :: 0 <= i < |shorter| ==> (shorter + [name])[i] == shorter[i];
    if name in all {
      var k := Place(all, name);
      if k >= start {
        CutRecent(all, k, start);
      } else {
        CutForgotten(all, k, start);
      }
    }
  }

  /** After setting a name the stored names are again the end of all names, and a full store stays full. */
  lemma {:induction false} TailAfterSet<Name>(all: seq<Name>, kept: seq<Name>, name: Name)
    requires IsTail(kept, all)
    ensures IsTail(Touch(kept, name), Without(all, name) + [name])
    ensures |kept| == Min(|all|, MAX_BUFFERS) ==> |Touch(kept, name)| == Min(|Without(all, name)| + 1, MAX_BUFFERS)
  {
    var start := |all| - |kept|;
    var shorter := Without(all, name);
    TailAfterDelete(all, kept, name);
    WithoutDistinct(all, name);
    if name !in kept {
      var room := Room(kept, name);
      assert Without(kept, name) == kept;
      assert room == shorter[|shorter| - |room|..];
      DropSnoc(shorter, |shorter| - |room|, name);
    } else {
      DropSnoc(shorter, |shorter| - |Without(kept, name)|, name);
    }
  }
}

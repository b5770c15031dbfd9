/**
 * `ExtraBlockDataManager`: packs the registered extra-data fields of each bit size into as few
 * storage slots as possible (a minimum clique cover of the disjointness graph of the group),
 * numbers the slots in the order the cliques are found, and answers slot lookups and array
 * allocation requests.
 */
module Manager {
  import opened Wrappers
  import opened Graphs
  import opened CliqueCover
  import opened Disjointness
  import opened Factories
  import opened Registration

  /** The fields of each bit size: field name to the blocks it applies to. */
  type Groups = map<int, map<string, set<Block>>>

  /** One slot: a clique of field names from the group of bit size `bitSize`. */
  datatype SlotClique = SlotClique(bitSize: int, names: seq<string>)

  /** The cliques of one group's cover, tagged with the group's bit size. */
  ghost function Tagged(bitSize: int, cover: Cover): seq<SlotClique> {
    seq(|cover|, p requires 0 <= p < |cover| => SlotClique(bitSize, cover[p]))
  }

  /** The number of cliques in the covers `covers` together. */
  ghost function Size(covers: seq<Cover>): nat {
    if covers == [] then 0 else Size(covers[..|covers| - 1]) + |covers[|covers| - 1]|
  }

  /** The slots in allocation order: the cliques of each group's cover, group after group. */
  ghost function CliquesOf(groups: seq<int>, covers: seq<Cover>): (cl: seq<SlotClique>)
    requires |groups| == |covers|
    ensures |cl| == Size(covers)
  {
    if covers == [] then []
    else CliquesOf(groups[..|groups| - 1], covers[..|covers| - 1]) + Tagged(groups[|groups| - 1], covers[|covers| - 1])
  }

  /** The `slots` map once the allocation loop has numbered the cliques `cl` in order. */
  ghost function SlotsOf(cl: seq<SlotClique>): map<string, int> {
    if cl == [] then map[]
    else SlotsOf(cl[..|cl| - 1]) + Numbered(cl[|cl| - 1].names, |cl| - 1)
  }

  /** Every name of a clique numbered `k`. */
  ghost function Numbered(names: seq<string>, k: int): map<string, int> {
    map n | n in names :: k
  }

  /** Every clique comes from a supported bit size. */
  ghost predicate SupportedSizes(cl: seq<SlotClique>) {
    forall k :: 0 <= k < |cl| ==> cl[k].bitSize in TeraArrayFactories
  }

  /** The slot factory list: slot k gets the factory of its clique's bit size. */
  ghost function FactoriesOf(cl: seq<SlotClique>): seq<Factory>
    requires SupportedSizes(cl)
  {
    seq(|cl|, k requires 0 <= k < |cl| => TeraArrayFactories[cl[k].bitSize])
  }

  /** `slots` and `factories` are the numbering of the cliques `cl`. */
  ghost predicate Numbering(cl: seq<SlotClique>, slots: map<string, int>, factories: seq<Factory>) {
    SupportedSizes(cl) && slots == SlotsOf(cl) && factories == FactoriesOf(cl)
  }

  /** Clique `k` holds `name` and no later clique does. */
  ghost predicate LastHolder(cl: seq<SlotClique>, k: int, name: string) {
    0 <= k < |cl| && name in cl[k].names && forall k' :: k < k' < |cl| ==> name !in cl[k'].names
  }

  /**
   * A name has a slot exactly when some clique holds it, and its slot is the last clique holding
   * it: a later clique overwrites an earlier slot number.
   */
  lemma {:induction false} SlotIsLastClique(cl: seq<SlotClique>, name: string)
    ensures name in SlotsOf(cl) <==> exists k :: 0 <= k < |cl| && name in cl[k].names
    ensures name in SlotsOf(cl) ==> LastHolder(cl, SlotsOf(cl)[name], name)
  {
    if cl != [] {
      var n := |cl| - 1;
      var p := cl[..n];
      SlotIsLastClique(p, name);
      if name in cl[n].names {
        assert SlotsOf(cl)[name] == n;
      } else {
        assert name in SlotsOf(cl) <==> name in SlotsOf(p);
        if name in SlotsOf(p) {
          assert SlotsOf(cl)[name] == SlotsOf(p)[name];
          assert p[SlotsOf(p)[name]] == cl[SlotsOf(p)[name]];
        }
        forall k | 0 <= k < n && name in cl[k].names
          ensures name in SlotsOf(p)
        {
          assert p[k] == cl[k];
        }
      }
    }
  }

  /** A name whose last clique is `k` has slot `k`. */
  lemma LastHolderSlot(cl: seq<SlotClique>, k: int, name: string)
    requires LastHolder(cl, k, name)
    ensures name in SlotsOf(cl) && SlotsOf(cl)[name] == k
  {
    SlotIsLastClique(cl, name);
  }

  /** No name is in two cliques. */
  ghost predicate NoSharedNames(cl: seq<SlotClique>) {
    forall k, k', name :: 0 <= k < k' < |cl| && name in cl[k].names ==> name !in cl[k'].names
  }

  /**
   * When no name is in two cliques and no clique is empty, the slot numbers in use are exactly
   * 0 .. |cl| - 1: every one is below |cl|, and the first name of clique k has slot k.
   */
  lemma SlotsDense(cl: seq<SlotClique>)
    requires forall k :: 0 <= k < |cl| ==> cl[k].names != []
    requires NoSharedNames(cl)
    ensures forall name :: name in SlotsOf(cl) ==> 0 <= SlotsOf(cl)[name] < |cl|
    ensures forall k :: 0 <= k < |cl| ==> cl[k].names[0] in SlotsOf(cl) && SlotsOf(cl)[cl[k].names[0]] == k
  {
    forall name | name in SlotsOf(cl)
      ensures 0 <= SlotsOf(cl)[name] < |cl|
    {
      SlotIsLastClique(cl, name);
    }
    forall k | 0 <= k < |cl|
      ensures cl[k].names[0] in SlotsOf(cl) && SlotsOf(cl)[cl[k].names[0]] == k
    {
      OnlyHolderSlot(cl, k, cl[k].names[0]);
    }
  }

  /** With no shared names, a name of clique k has slot k. */
  lemma OnlyHolderSlot(cl: seq<SlotClique>, k: int, name: string)
    requires NoSharedNames(cl) && 0 <= k < |cl| && name in cl[k].names
    ensures name in SlotsOf(cl) && SlotsOf(cl)[name] == k
  {
    assert LastHolder(cl, k, name);
    LastHolderSlot(cl, k, name);
  }

  /**
   * A name registered under two bit sizes is numbered twice, and the earlier slot is left with no
   * name: the slot numbers in use then have a gap.
   */
  lemma OverwrittenSlotUnused()
    ensures var cl := [SlotClique(4, ["a"]), SlotClique(8, ["a"])];
      && SlotsOf(cl) == map["a" := 1]
      && forall name :: name in SlotsOf(cl) ==> SlotsOf(cl)[name] != 0
  {
    var cl := [SlotClique(4, ["a"]), SlotClique(8, ["a"])];
    assert cl[..1] == [SlotClique(4, ["a"])];
    assert cl[..1][..0] == [];
  }

  /** The clique lists of a prefix of the groups are a prefix of the clique list. */
  lemma {:induction false} CliquesOfAt(groups: seq<int>, covers: seq<Cover>, g: int, p: int)
    requires |groups| == |covers| && 0 <= g < |groups| && 0 <= p < |covers[g]|
    ensures Size(covers[..g]) + p < Size(covers)
    ensures CliquesOf(groups, covers)[Size(covers[..g]) + p] == SlotClique(groups[g], covers[g][p])
  {
    var n := |covers| - 1;
    var gs, cs := groups[..n], covers[..n];
    assert covers[..n + 1] == covers;
    if g == n {
      assert Size(covers) == Size(cs) + |covers[n]|;
    } else {
      CliquesOfAt(gs, cs, g, p);
      assert cs[..g] == covers[..g];
    }
  }

  /** Every slot is a clique `p` of the cover of some group `g`, numbered after the earlier groups. */
  lemma {:induction false} CliquesOfIndex(groups: seq<int>, covers: seq<Cover>, k: int) returns (g: int, p: int)
    requires |groups| == |covers| && 0 <= k < Size(covers)
    ensures 0 <= g < |groups| && 0 <= p < |covers[g]| && k == Size(covers[..g]) + p
    ensures CliquesOf(groups, covers)[k] == SlotClique(groups[g], covers[g][p])
  {
    var n := |covers| - 1;
    var cs := covers[..n];
    assert covers[..n + 1] == covers;
    if k < Size(cs) {
      g, p := CliquesOfIndex(groups[..n], cs, k);
      assert cs[..g] == covers[..g];
    } else {
      g, p := n, k - Size(cs);
    }
    CliquesOfAt(groups, covers, g, p);
  }

  /** Later groups are numbered after all the cliques of earlier ones. */
  lemma {:induction false} SizeGrows(covers: seq<Cover>, g: int, g': int)
    requires 0 <= g <= g' <= |covers|
    ensures Size(covers[..g]) <= Size(covers[..g'])
    decreases g' - g
  {
    if g < g' {
      assert covers[..g + 1][..g] == covers[..g];
      SizeGrows(covers, g + 1, g');
    }
  }

  /** The cliques of a cover of the disjointness graph of a group of fields. */
  ghost predicate GroupOrder(groups: seq<int>, fieldss: Groups) {
    && (forall g, g' :: 0 <= g < g' < |groups| ==> groups[g] != groups[g'])
    && (forall s :: s in groups <==> s in fieldss)
  }

  /** The groups visited so far: each once, and exactly the keys not left in `rest`. */
  ghost predicate Visited(fieldss: Groups, rest: set<int>, groups: seq<int>) {
    && rest <= fieldss.Keys
    && (forall g, g' :: 0 <= g < g' < |groups| ==> groups[g] != groups[g'])
    && (forall s :: s in groups <==> s in fieldss && s !in rest)
  }

  /** Visiting one more group moves it from `rest` to the end of `groups`. */
  lemma VisitedStep(fieldss: Groups, rest: set<int>, groups: seq<int>, size: int)
    requires Visited(fieldss, rest, groups) && size in rest
    ensures Visited(fieldss, rest - {size}, groups + [size])
  {
    var gs := groups + [size];
    forall g, g' | 0 <= g < g' < |gs|
      ensures gs[g] != gs[g']
    {
      assert gs[g] == groups[g];
      if g' < |groups| { assert gs[g'] == groups[g']; }
    }
  }

  /** Each group's cover is a minimum clique cover of the disjointness graph of its fields. */
  ghost predicate MinimumCovers(fieldss: Groups, groups: seq<int>, covers: seq<Cover>) {
    && |covers| == |groups|
    && forall g :: 0 <= g < |groups| ==>
      groups[g] in fieldss && IsMinimumCliqueCover(DisjointnessEdges(fieldss[groups[g]]), covers[g])
  }

  /** The slot numbers of one clique: every name in it gets `k`. */
  method AssignClique(slots: map<string, int>, clique: seq<string>, k: int) returns (r: map<string, int>)
    ensures r == slots + Numbered(clique, k)
  {
    r := slots;
    for j := 0 to |clique|
      invariant r == slots + Numbered(clique[..j], k)
    {
      assert clique[..j + 1] == clique[..j] + [clique[j]];
      r := r[clique[j] := k];
    }
    assert clique[..|clique|] == clique;
  }

  /** Numbering one more clique adds its names, with the next slot number, over the earlier ones. */
  lemma SlotsAppend(cl: seq<SlotClique>, c: SlotClique)
    ensures SlotsOf(cl + [c]) == SlotsOf(cl) + Numbered(c.names, |cl|)
  {
    assert (cl + [c])[..|cl|] == cl;
  }

  /** One more clique adds one factory, of its bit size. */
  lemma FactoriesAppend(cl: seq<SlotClique>, c: SlotClique)
    requires SupportedSizes(cl) && c.bitSize in TeraArrayFactories
    ensures SupportedSizes(cl + [c])
    ensures FactoriesOf(cl + [c]) == FactoriesOf(cl) + [TeraArrayFactories[c.bitSize]]
  {
    var after := cl + [c];
    forall k | 0 <= k < |after|
      ensures after[k].bitSize in TeraArrayFactories
    {
      if k < |cl| { assert after[k] == cl[k]; }
    }
  }

  /** Tagging one more clique of a cover appends it. */
  lemma TaggedAppend(cl: seq<SlotClique>, size: int, cover: Cover, p: int)
    requires 0 <= p < |cover|
    ensures cl + Tagged(size, cover[..p + 1]) == (cl + Tagged(size, cover[..p])) + [SlotClique(size, cover[p])]
  {
    assert Tagged(size, cover[..p + 1]) == Tagged(size, cover[..p]) + [SlotClique(size, cover[p])];
  }

  /**
   * The body of the allocation loop for one group: every clique of its cover gets the next slot
   * number and a factory of the group's bit size.
   */
  method AssignGroup(slots: map<string, int>, factories: seq<Factory>, size: int, cover: Cover, ghost cl: seq<SlotClique>)
    returns (slots': map<string, int>, factories': seq<Factory>)
    requires size in TeraArrayFactories && Numbering(cl, slots, factories)
    ensures Numbering(cl + Tagged(size, cover), slots', factories')
  {
    slots', factories' := slots, factories;
    assert cl + Tagged(size, cover[..0]) == cl;
    for p := 0 to |cover|
      invariant Numbering(cl + Tagged(size, cover[..p]), slots', factories')
    {
      ghost var before := cl + Tagged(size, cover[..p]);
      TaggedAppend(cl, size, cover, p);
      SlotsAppend(before, SlotClique(size, cover[p]));
      FactoriesAppend(before, SlotClique(size, cover[p]));
      slots' := AssignClique(slots', cover[p], |factories'|);
      factories' := factories' + [TeraArrayFactories[size]];
    }
    assert cover[..|cover|] == cover;
  }

  /** Allocating one more group appends the cliques of its cover. */
  lemma CliquesAppend(groups: seq<int>, covers: seq<Cover>, size: int, cover: Cover)
    requires |groups| == |covers|
    ensures CliquesOf(groups + [size], covers + [cover]) == CliquesOf(groups, covers) + Tagged(size, cover)
  {
    assert (groups + [size])[..|groups|] == groups;
    assert (covers + [cover])[..|covers|] == covers;
  }

  /** One more group with a minimum cover keeps every group's cover minimum. */
  lemma MinimumCoversAppend(fieldss: Groups, groups: seq<int>, covers: seq<Cover>, size: int, cover: Cover)
    requires MinimumCovers(fieldss, groups, covers)
    requires size in fieldss && IsMinimumCliqueCover(DisjointnessEdges(fieldss[size]), cover)
    ensures MinimumCovers(fieldss, groups + [size], covers + [cover])
  {
    var gs, cs := groups + [size], covers + [cover];
    forall g | 0 <= g < |gs|
      ensures gs[g] in fieldss && IsMinimumCliqueCover(DisjointnessEdges(fieldss[gs[g]]), cs[g])
    {
      if g < |groups| {
        assert gs[g] == groups[g] && cs[g] == covers[g];
      }
    }
  }

  /** `getDisjointnessGraph` then `findCliqueCover` in the allocation loop: the disjointness graph of one group and a minimum clique cover of it. */
  method CoverGroup(fields: map<string, set<Block>>) returns (cover: Cover)
    requires |fields| < MaxInt
    ensures IsMinimumCliqueCover(DisjointnessEdges(fields), cover)
  {
    var graph := GetDisjointnessGraph(fields);
    DisjointnessWellFormed(graph.verts, fields);
    var found := FindCliqueCover(graph);
    cover := found.value;
  }

  /** The next key a `HashMap` traversal visits: any one not visited yet. */
  method AnyOf<K>(rest: set<K>) returns (key: K)
    requires rest != {}
    ensures key in rest
  {
    key :| key in rest;
  }

  /**
   * The slot-allocation loop of the constructor: for each group, in any order, build the
   * disjointness graph, find a minimum clique cover, and give each clique a slot.
   */
  method AllocateSlots(fieldss: Groups) returns (slots: map<string, int>, factories: seq<Factory>,
                                                 ghost groups: seq<int>, ghost covers: seq<Cover>)
    requires forall s :: s in fieldss ==> s in TeraArrayFactories && |fieldss[s]| < MaxInt
    ensures GroupOrder(groups, fieldss) && MinimumCovers(fieldss, groups, covers)
    ensures Numbering(CliquesOf(groups, covers), slots, factories)
  {
    slots, factories, groups, covers := map[], [], [], [];
    var rest := fieldss.Keys;
    while rest != {}
      invariant Visited(fieldss, rest, groups)
      invariant MinimumCovers(fieldss, groups, covers)
      invariant Numbering(CliquesOf(groups, covers), slots, factories)
      decreases |rest|
    {
      var size := AnyOf(rest);
      var cover := CoverGroup(fieldss[size]);
      ghost var cl := CliquesOf(groups, covers);
      slots, factories := AssignGroup(slots, factories, size, cover, cl);
      CliquesAppend(groups, covers, size, cover);
      MinimumCoversAppend(fieldss, groups, covers, size, cover);
      VisitedStep(fieldss, rest, groups, size);
      groups, covers := groups + [size], covers + [cover];
      rest := rest - {size};
    }
  }

  /** Where a name lands: the group of bit size `groups[g]` holds a name of its `p`-th clique. */
  lemma CliqueMembers(fieldss: Groups, groups: seq<int>, covers: seq<Cover>, g: int, p: int, name: string)
    requires MinimumCovers(fieldss, groups, covers) && 0 <= g < |groups| && 0 <= p < |covers[g]|
    requires name in covers[g][p]
    ensures groups[g] in fieldss && name in fieldss[groups[g]]
  {
    var edges := DisjointnessEdges(fieldss[groups[g]]);
    assert CoversVertices(edges, covers[g]);
    assert name in edges;
  }

  /** The group `g` of a registered name has a clique `p` holding it. */
  lemma GroupCovers(fieldss: Groups, groups: seq<int>, covers: seq<Cover>, g: int, name: string) returns (p: int)
    requires MinimumCovers(fieldss, groups, covers) && 0 <= g < |groups|
    requires groups[g] in fieldss && name in fieldss[groups[g]]
    ensures 0 <= p < |covers[g]| && name in covers[g][p]
  {
    var edges := DisjointnessEdges(fieldss[groups[g]]);
    assert IsCliqueCover(edges, covers[g]);
    assert name in edges;
    p :| 0 <= p < |covers[g]| && name in covers[g][p];
  }

  /** The cliques of group `g` are numbered from `Size(covers[..g])` to just below `Size(covers[..g + 1])`. */
  lemma SizeStep(covers: seq<Cover>, g: int)
    requires 0 <= g < |covers|
    ensures Size(covers[..g + 1]) == Size(covers[..g]) + |covers[g]|
  {
    assert covers[..g + 1][..g] == covers[..g];
  }

  /**
   * Clique p of group g is the last clique holding `name` when no later group registers it: other
   * cliques of the same group are disjoint from it, and later groups' cliques miss the name.
   */
  lemma LastCliqueOfGroup(fieldss: Groups, groups: seq<int>, covers: seq<Cover>, g: int, p: int, name: string)
    requires MinimumCovers(fieldss, groups, covers) && 0 <= g < |groups| && 0 <= p < |covers[g]|
    requires name in covers[g][p]
    requires forall g' :: 0 <= g' < |groups| ==> groups[g'] in fieldss
    requires forall g' :: g < g' < |groups| ==> name !in fieldss[groups[g']]
    ensures Size(covers[..g]) + p < Size(covers)
    ensures LastHolder(CliquesOf(groups, covers), Size(covers[..g]) + p, name)
    ensures name in SlotsOf(CliquesOf(groups, covers)) && SlotsOf(CliquesOf(groups, covers))[name] == Size(covers[..g]) + p
  {
    var cl := CliquesOf(groups, covers);
    var k := Size(covers[..g]) + p;
    CliquesOfAt(groups, covers, g, p);
    forall k' | k < k' < |cl|
      ensures name !in cl[k'].names
    {
      var g', p' := CliquesOfIndex(groups, covers, k');
      if name in cl[k'].names {
        if g' < g {
          SizeStep(covers, g');
          SizeGrows(covers, g' + 1, g);
        } else {
          CliqueMembers(fieldss, groups, covers, g', p', name);
        }
      }
    }
    LastHolderSlot(cl, k, name);
  }

  /** The last clique holding a name belongs to the last group that registered it. */
  lemma LastHolderGroup(fieldss: Groups, groups: seq<int>, covers: seq<Cover>, k: int, name: string) returns (g: int)
    requires MinimumCovers(fieldss, groups, covers) && LastHolder(CliquesOf(groups, covers), k, name)
    ensures 0 <= g < |groups| && CliquesOf(groups, covers)[k].bitSize == groups[g]
    ensures groups[g] in fieldss && name in fieldss[groups[g]]
    ensures forall g' :: g < g' < |groups| ==> name !in fieldss[groups[g']]
  {
    var p;
    g, p := CliquesOfIndex(groups, covers, k);
    CliqueMembers(fieldss, groups, covers, g, p, name);
    forall g' | g < g' < |groups|
      ensures name !in fieldss[groups[g']]
    {
      if name in fieldss[groups[g']] {
        var p' := GroupCovers(fieldss, groups, covers, g', name);
        CliquesOfAt(groups, covers, g', p');
        SizeStep(covers, g);
        SizeGrows(covers, g + 1, g');
      }
    }
  }

  /**
   * The manager: `slots` maps each field name to its slot number and `slotFactories` holds one
   * factory per slot. The ghost fields record the groups of fields the slots were allocated from,
   * the order the groups were visited in, and the cover found for each.
   */
  class ExtraBlockDataManager {
    var slots: map<string, int>
    var slotFactories: array<Factory>
    ghost var fieldss: Groups
    ghost var groups: seq<int>
    ghost var covers: seq<Cover>

    /** The slots are numbered in allocation order from minimum clique covers of each group. */
    ghost predicate Valid()
      reads this, slotFactories
    {
      && (forall s :: s in fieldss ==> s in TeraArrayFactories)
      && GroupOrder(groups, fieldss)
      && MinimumCovers(fieldss, groups, covers)
      && Numbering(CliquesOf(groups, covers), slots, slotFactories[..])
    }

    /** The constructor used by tests: no fields, no slots. */
    constructor ForTesting()
      ensures Valid() && fieldss == map[]
      ensures slots == map[] && slotFactories.Length == 0
    {
      slots := map[];
      slotFactories := new Factory[0];
      fieldss, groups, covers := map[], [], [];
    }

    /**
     * The constructor proper: collect the accepted registrations into groups by bit size, then
     * allocate slots. Every group must hold fewer than `Integer.MAX_VALUE` fields, as any Java
     * array of their names does.
     */
    constructor (regs: seq<Registration>, blocks: seq<Block>)
      requires forall s :: s in Registered(regs, blocks) ==> |Registered(regs, blocks)[s]| < MaxInt
      ensures Valid() && fieldss == Registered(regs, blocks)
    {
      var fs := CollectFields(regs, blocks);
      var sl, factories, gs, cs := AllocateSlots(fs);
      slots := sl;
      var arr := new Factory[|factories|](i requires 0 <= i < |factories| => factories[i]);
      assert arr[..] == factories;
      slotFactories := arr;
      fieldss, groups, covers := fs, gs, cs;
    }

    /**
     * `getSlotNumber`: the slot of a registered name, which is a valid slot of a clique holding
     * the name; an unregistered name is an `IllegalArgumentException` with this message.
     */
    function GetSlotNumber(name: string): (r: Result<int, string>)
      reads this, slotFactories
      ensures r.Success? <==> name in slots
      ensures r.Success? ==> r.value == slots[name]
      ensures r.Failure? ==> r.error == "Extra-data name not registered: " + name
      ensures Valid() && r.Success? ==> 0 <= r.value < slotFactories.Length
      ensures Valid() && r.Success? ==> LastHolder(CliquesOf(groups, covers), r.value, name)
    {
      SlotLookup(name);
      if name in slots then Success(slots[name])
      else Failure("Extra-data name not registered: " + name)
    }

    lemma SlotLookup(name: string)
      ensures Valid() && name in slots ==> 0 <= slots[name] < slotFactories.Length
      ensures Valid() && name in slots ==> LastHolder(CliquesOf(groups, covers), slots[name], name)
    {
      if Valid() && name in slots {
        SlotIsLastClique(CliquesOf(groups, covers), name);
        assert slotFactories.Length == |slotFactories[..]|;
      }
    }

    /** The number of slots is the total size of the minimum covers of all groups. */
    lemma SlotCount()
      requires Valid()
      ensures slotFactories.Length == Size(covers)
      ensures forall name :: name in slots ==> 0 <= slots[name] < slotFactories.Length
    {
      assert |slotFactories[..]| == slotFactories.Length;
      forall name | name in slots
        ensures 0 <= slots[name] < slotFactories.Length
      {
        SlotLookup(name);
      }
    }

    /** A name has a slot exactly when some group registered it. */
    lemma SlotsAreRegistered(name: string)
      requires Valid()
      ensures name in slots <==> exists s :: s in fieldss && name in fieldss[s]
    {
      var cl := CliquesOf(groups, covers);
      SlotIsLastClique(cl, name);
      if name in slots {
        var g, p := CliquesOfIndex(groups, covers, slots[name]);
        CliqueMembers(fieldss, groups, covers, g, p, name);
      }
      if s :| s in fieldss && name in fieldss[s] {
        var g :| 0 <= g < |groups| && groups[g] == s;
        var p := GroupCovers(fieldss, groups, covers, g, name);
        CliquesOfAt(groups, covers, g, p);
      }
    }

    /**
     * Two names that share a slot were registered under the slot's bit size and apply to
     * disjoint sets of blocks.
     */
    lemma SharedSlotDisjoint(a: string, b: string)
      requires Valid() && a in slots && b in slots && a != b && slots[a] == slots[b]
      ensures 0 <= slots[a] < slotFactories.Length
      ensures var s := slotFactories[slots[a]].bitSize;
        s in fieldss && a in fieldss[s] && b in fieldss[s] && fieldss[s][a] !! fieldss[s][b]
    {
      var cl := CliquesOf(groups, covers);
      var k := slots[a];
      SlotIsLastClique(cl, a);
      SlotIsLastClique(cl, b);
      var g, p := CliquesOfIndex(groups, covers, k);
      var fields := fieldss[groups[g]];
      assert IsCliqueCover(DisjointnessEdges(fields), covers[g]);
      assert a in covers[g][p] && b in covers[g][p];
      assert b in DisjointnessEdges(fields)[a];
      assert slotFactories[k] == FactoriesOf(cl)[k] == TeraArrayFactories[groups[g]];
      FactoriesTagged();
    }

    /** Group `g` is the last visited group that registered `name`. */
    ghost predicate LastGroup(g: int, name: string)
      reads this
    {
      && 0 <= g < |groups|
      && (forall g' :: 0 <= g' < |groups| ==> groups[g'] in fieldss)
      && name in fieldss[groups[g]]
      && forall g' :: g < g' < |groups| ==> name !in fieldss[groups[g']]
    }

    /**
     * A name's slot holds the factory of the bit size of the last group, in visiting order, that
     * registered the name: a later group overwrites the slot an earlier one gave it.
     */
    lemma SlotFactoryMatches(name: string)
      requires Valid() && name in slots
      ensures 0 <= slots[name] < slotFactories.Length
      ensures exists g :: LastGroup(g, name) && slotFactories[slots[name]] == TeraArrayFactories[groups[g]]
    {
      var cl := CliquesOf(groups, covers);
      var k := slots[name];
      SlotIsLastClique(cl, name);
      var g := LastHolderGroup(fieldss, groups, covers, k, name);
      assert LastGroup(g, name);
      assert slotFactories[k] == FactoriesOf(cl)[k];
    }

    /**
     * Slots are numbered in discovery order: a name in clique `p` of the `g`-th group visited,
     * and in no later group, has slot `p` after all the cliques of the earlier groups.
     */
    lemma SlotOfClique(g: int, p: int, name: string)
      requires Valid() && LastGroup(g, name) && 0 <= p < |covers[g]| && name in covers[g][p]
      ensures name in slots && slots[name] == Size(covers[..g]) + p
    {
      assert MinimumCovers(fieldss, groups, covers);
      assert forall g' :: 0 <= g' < |groups| ==> groups[g'] in fieldss;
      assert forall g' :: g < g' < |groups| ==> name !in fieldss[groups[g']];
      LastCliqueOfGroup(fieldss, groups, covers, g, p, name);
    }

    /** Slot `k` is the slot of some name. */
    ghost predicate InUse(k: int)
      reads this
    {
      exists name :: name in slots && slots[name] == k
    }

    /**
     * When no name is registered under two bit sizes, the slot numbers in use are exactly
     * 0 .. slotFactories.Length - 1.
     */
    lemma SlotsContiguous()
      requires Valid()
      requires forall s, s', name :: s in fieldss && s' in fieldss && s != s' && name in fieldss[s] ==> name !in fieldss[s']
      ensures forall name :: name in slots ==> 0 <= slots[name] < slotFactories.Length
      ensures forall k :: 0 <= k < slotFactories.Length ==> InUse(k)
    {
      var cl := CliquesOf(groups, covers);
      SlotCount();
      forall k | 0 <= k < |cl|
        ensures cl[k].names != []
      {
        var g, p := CliquesOfIndex(groups, covers, k);
        assert IsCliqueCover(DisjointnessEdges(fieldss[groups[g]]), covers[g]);
      }
      forall k, k', name | 0 <= k < k' < |cl| && name in cl[k].names
        ensures name !in cl[k'].names
      {
        var g, p := CliquesOfIndex(groups, covers, k);
        var g', p' := CliquesOfIndex(groups, covers, k');
        CliqueMembers(fieldss, groups, covers, g, p, name);
        if name in cl[k'].names {
          CliqueMembers(fieldss, groups, covers, g', p', name);
        }
      }
      SlotsDense(cl);
      forall k | 0 <= k < slotFactories.Length
        ensures InUse(k)
      {
        assert cl[k].names[0] in slots;
      }
    }

    /** `makeDataArrays`: one fresh array per slot, each created by that slot's factory. */
    method MakeDataArrays(sizeX: int, sizeY: int, sizeZ: int) returns (extraData: array<TeraArray>)
      ensures fresh(extraData) && extraData.Length == slotFactories.Length
      ensures forall i :: 0 <= i < extraData.Length ==> extraData[i] == Create(slotFactories[i], sizeX, sizeY, sizeZ)
    {
      extraData := new TeraArray[slotFactories.Length];
      for i := 0 to extraData.Length
        invariant forall j :: 0 <= j < i ==> extraData[j] == Create(slotFactories[j], sizeX, sizeY, sizeZ)
      {
        extraData[i] := Create(slotFactories[i], sizeX, sizeY, sizeZ);
      }
    }
  }
}

/** The 16-slot ARP cache (kernel/net.c:207-244). */
module ArpCache {
  import opened Common

  const SLOTS: nat := 16
  /** The tick the search for the oldest entry starts from. */
  const NEVER: nat := 0xFFFF_FFFF

  type Mac = m: seq<nat> | |m| == 6 witness [0, 0, 0, 0, 0, 0]

  /** A reading of the 32-bit timer. */
  type Tick = t: nat | t <= NEVER

  datatype Entry = Entry(ip: nat, mac: Mac, tick: Tick, valid: bool)

  /** One call of arp_cache_update, with the timer's tick at that moment. */
  datatype Update = Update(ip: nat, mac: Mac, tick: Tick)

  type Slots = s: seq<Entry> | |s| == SLOTS witness seq(SLOTS, i => Entry(0, [0, 0, 0, 0, 0, 0], 0, false))

  // ---------------------------------------------------------------- one update

  predicate Matches(e: Entry, ip: nat) { e.valid && e.ip == ip }

  ghost predicate Holds(s: Slots, ip: nat) { exists i :: 0 <= i < SLOTS && Matches(s[i], ip) }

  ghost predicate Full(s: Slots) { forall i :: 0 <= i < SLOTS ==> s[i].valid }

  /** No address is held twice. */
  ghost predicate NoDuplicates(s: Slots)
  {
    forall i, j :: 0 <= i < SLOTS && 0 <= j < SLOTS && s[i].valid && s[j].valid && s[i].ip == s[j].ip ==> i == j
  }

  /** Where an update goes: onto the address's own entry, else into the first free slot, else over a slot no valid
      entry of which is older. */
  ghost predicate Chosen(s: Slots, ip: nat, k: nat)
  {
    && k < SLOTS
    && if Holds(s, ip) then Matches(s[k], ip)
       else if !Full(s) then !s[k].valid && forall i :: 0 <= i < k ==> s[i].valid
       else (forall i :: 0 <= i < SLOTS ==> s[k].tick <= s[i].tick) && forall i :: 0 <= i < k ==> s[k].tick < s[i].tick
  }

  function Written(u: Update): Entry { Entry(u.ip, u.mac, u.tick, true) }

  /** The cache after an update, as a relation between the two contents. */
  ghost predicate Updated(s: Slots, u: Update, t: Slots)
  {
    if u.ip == 0 then t == s
    else exists k: nat :: Chosen(s, u.ip, k) && t == s[k := Written(u)]
  }

  /** The slot is determined, so the update is a function of the contents. */
  lemma ChosenUnique(s: Slots, ip: nat, j: nat, k: nat)
    requires NoDuplicates(s) && Chosen(s, ip, j) && Chosen(s, ip, k)
    ensures j == k
  {
    assert Holds(s, ip) ==> s[j].valid && s[k].valid && s[j].ip == s[k].ip;
    assert !Holds(s, ip) && !Full(s) ==> !s[j].valid && !s[k].valid;
    assert !Holds(s, ip) && Full(s) ==> s[j].tick == s[k].tick;
  }

  class Cache {
    const slots: array<Entry>
    /** Every update so far, in order. */
    ghost var history: seq<Update>

    ghost predicate Valid()
      reads this, slots
    {
      slots.Length == SLOTS && NoDuplicates(slots[..]) && UpToDate(history, slots[..])
    }

    constructor ()
      ensures Valid() && fresh(slots) && slots[..] == Blank() && history == []
    {
      slots := new Entry[SLOTS](i => Entry(0, [0, 0, 0, 0, 0, 0], 0, false));
      history := [];
    }

    /** arp_cache_update. */
    method Learn(u: Update)
      requires Valid()
      modifies this`history, slots
      ensures Valid() && history == old(history) + [u]
      ensures Updated(old(slots[..]), u, slots[..])
    {
      ghost var s: Slots := slots[..];
      Store(u);
      StepKeeps(history, s, u, slots[..]);
      history := history + [u];
    }

    /** The body of arp_cache_update. */
    method Store(u: Update)
      requires slots.Length == SLOTS
      modifies slots
      ensures Updated(old(slots[..]), u, slots[..])
    {
      if u.ip == 0 { return; }
      ghost var s: Slots := slots[..];
      var free: int, oldest: nat, oldestTick: Tick := -1, 0, NEVER;
      for i := 0 to SLOTS
        invariant slots[..] == s
        invariant forall j :: 0 <= j < i ==> !Matches(s[j], u.ip)
        invariant free < 0 ==> forall j :: 0 <= j < i ==> s[j].valid
        invariant 0 <= free ==> free < i && !s[free].valid && forall j :: 0 <= j < free ==> s[j].valid
        invariant oldest < SLOTS
        invariant oldestTick == NEVER ==> oldest == 0
        invariant oldestTick < NEVER ==> s[oldest].valid && s[oldest].tick == oldestTick
        invariant forall j :: 0 <= j < i && s[j].valid ==> oldestTick <= s[j].tick
        invariant forall j :: 0 <= j < oldest && s[j].valid ==> oldestTick < s[j].tick
      {
        if slots[i].valid && slots[i].ip == u.ip {
          assert Matches(s[i], u.ip);
          slots[i] := slots[i].(mac := u.mac, tick := u.tick);
          assert Chosen(s, u.ip, i) && slots[..] == s[i := Written(u)];
          return;
        }
        if !slots[i].valid && free < 0 { free := i; }
        if slots[i].valid && slots[i].tick < oldestTick { oldestTick, oldest := slots[i].tick, i; }
      }
      var slot: nat := if 0 <= free then free else oldest;
      assert Chosen(s, u.ip, slot);
      slots[slot] := Entry(u.ip, u.mac, u.tick, true);
      assert slots[..] == s[slot := Written(u)];
    }

    /** arp_cache_lookup: a hit answers what the latest update for the address said. */
    method Lookup(ip: nat) returns (mac: Option<Mac>)
      requires Valid()
      ensures mac.Some? <==> Holds(slots[..], ip)
      ensures mac.Some? ==> Latest(history, ip).Some? && mac.value == Latest(history, ip).value.mac
    {
      for i := 0 to SLOTS
        invariant forall j :: 0 <= j < i ==> !Matches(slots[j], ip)
      {
        if slots[i].valid && slots[i].ip == ip {
          assert Matches(slots[..][i], ip);
          return Some(slots[i].mac);
        }
      }
      mac := None;
    }
  }

  // ---------------------------------------------------------------- runs

  /** The cache net_init leaves. */
  function Blank(): (s: Slots)
    ensures forall i :: 0 <= i < SLOTS ==> !s[i].valid
  {
    seq(SLOTS, i => Entry(0, [0, 0, 0, 0, 0, 0], 0, false))
  }

  /** The states a run of updates goes through, from the blank cache on. */
  ghost predicate IsRun(us: seq<Update>, ss: seq<Slots>)
  {
    && |ss| == |us| + 1 && ss[0] == Blank()
    && forall n :: 0 <= n < |us| ==> Updated(ss[n], us[n], ss[n + 1])
  }

  /** The last update for an address. */
  ghost function Latest(us: seq<Update>, ip: nat): Option<Update>
  {
    if us == [] then None
    else if us[|us| - 1].ip == ip then Some(us[|us| - 1])
    else Latest(us[..|us| - 1], ip)
  }

  /** Every valid entry is what the latest update for its address said. */
  ghost predicate UpToDate(us: seq<Update>, s: Slots)
  {
    forall i :: 0 <= i < SLOTS && s[i].valid ==> Current(us, s[i])
  }

  /** The entry has the address, the hardware address and the tick of the latest update for its address. */
  ghost predicate Current(us: seq<Update>, e: Entry)
  {
    && e.ip != 0 && Latest(us, e.ip).Some?
    && var u := Latest(us, e.ip).value;
       u.ip == e.ip && u.mac == e.mac && u.tick == e.tick
  }

  /** The latest update for an address is one for it behind which there is no other. */
  lemma {:induction false} LatestMeans(us: seq<Update>, ip: nat)
    ensures if Latest(us, ip).Some?
            then exists k :: 0 <= k < |us| && us[k] == Latest(us, ip).value && us[k].ip == ip
                             && forall j :: k < j < |us| ==> us[j].ip != ip
            else forall j :: 0 <= j < |us| ==> us[j].ip != ip
  {
    if us != [] {
      var n := |us| - 1;
      if us[n].ip == ip {
        assert us[n] == Latest(us, ip).value;
      } else {
        LatestMeans(us[..n], ip);
        if Latest(us, ip).Some? {
          var k :| 0 <= k < n && us[..n][k] == Latest(us, ip).value && us[..n][k].ip == ip
                   && forall j :: k < j < n ==> us[..n][j].ip != ip;
          assert us[k] == Latest(us, ip).value;
        }
      }
    }
  }

  lemma StepKeeps(us: seq<Update>, s: Slots, u: Update, t: Slots)
    requires NoDuplicates(s) && UpToDate(us, s) && Updated(s, u, t)
    ensures NoDuplicates(t) && UpToDate(us + [u], t)
  {
    assert (us + [u])[..|us|] == us;
    if u.ip == 0 {
      assert t == s;
    } else {
      var k: nat :| Chosen(s, u.ip, k) && t == s[k := Written(u)];
      forall i | 0 <= i < SLOTS && i != k && s[i].valid ensures s[i].ip != u.ip {
        assert s[i].ip == u.ip ==> Matches(s[i], u.ip);
      }
    }
  }

  /** Over every run of updates no address is held twice and every hit is the latest update for its address. */
  lemma {:induction false} RunCorrect(us: seq<Update>, ss: seq<Slots>)
    requires IsRun(us, ss)
    ensures NoDuplicates(ss[|us|]) && UpToDate(us, ss[|us|])
  {
    if us == [] {
      assert ss[0] == Blank();
    } else {
      var n := |us| - 1;
      RunCorrect(us[..n], ss[..n + 1]);
      assert us == us[..n] + [us[n]];
      StepKeeps(us[..n], ss[n], us[n], ss[n + 1]);
    }
  }

  /** An address leaves the cache only when another one arrives at a full cache in which no entry is older. */
  lemma LostOnlyIfOldest(s: Slots, u: Update, t: Slots, i: nat)
    requires NoDuplicates(s) && Updated(s, u, t) && i < SLOTS && s[i].valid && !Holds(t, s[i].ip)
    ensures Full(s) && u.ip != 0 && !Holds(s, u.ip) && Holds(t, u.ip)
    ensures forall j :: 0 <= j < SLOTS ==> s[i].tick <= s[j].tick
  {
    assert Matches(s[i], s[i].ip);
    assert !Matches(t[i], s[i].ip);
    var k: nat :| Chosen(s, u.ip, k) && t == s[k := Written(u)];
    assert Matches(t[k], u.ip);
  }

  // ---------------------------------------------------------------- capacity

  ghost function Addresses(us: seq<Update>): set<nat>
  {
    set u | u in us && u.ip != 0 :: u.ip
  }

  ghost function Held(s: Slots, n: nat): set<nat>
    requires n <= SLOTS
  {
    set i | 0 <= i < n && s[i].valid :: s[i].ip
  }

  lemma {:induction false} FullHolds(s: Slots, n: nat)
    requires Full(s) && NoDuplicates(s) && n <= SLOTS
    ensures |Held(s, n)| == n
  {
    if n != 0 {
      FullHolds(s, n - 1);
      assert Held(s, n) == Held(s, n - 1) + {s[n - 1].ip};
      assert s[n - 1].ip !in Held(s, n - 1);
    }
  }

  /** While at most sixteen addresses were seen nothing is ever lost: a lookup answers for each of them. */
  lemma {:induction false} NothingLost(us: seq<Update>, ss: seq<Slots>)
    requires IsRun(us, ss) && |Addresses(us)| <= SLOTS
    ensures forall ip :: ip in Addresses(us) ==> Holds(ss[|us|], ip)
  {
    if us != [] {
      var n := |us| - 1;
      var us0, s, u, t := us[..n], ss[n], us[n], ss[n + 1];
      assert us == us0 + [u];
      AddressesGrow(us0, u);
      RunCorrect(us0, ss[..n + 1]);
      NothingLost(us0, ss[..n + 1]);
      forall ip | ip in Addresses(us) ensures Holds(t, ip) {
        KeptWithinCapacity(us0, s, u, t, ip);
      }
    }
  }

  lemma AddressesGrow(us: seq<Update>, u: Update)
    ensures Addresses(us + [u]) == Addresses(us) + if u.ip == 0 then {} else {u.ip}
    ensures |Addresses(us)| <= |Addresses(us + [u])|
    ensures u.ip != 0 && u.ip !in Addresses(us) ==> |Addresses(us + [u])| == |Addresses(us)| + 1
  {
    var vs := us + [u];
    assert forall v :: v in vs <==> v in us || v == u;
    assert Addresses(vs) == Addresses(us) + if u.ip == 0 then {} else {u.ip};
    SubsetSize(Addresses(us), Addresses(vs));
  }

  lemma HeldAreSeen(us: seq<Update>, s: Slots)
    requires UpToDate(us, s)
    ensures Held(s, SLOTS) <= Addresses(us)
  {
    forall i | 0 <= i < SLOTS && s[i].valid ensures s[i].ip in Addresses(us) {
      LatestIsOne(us, s[i].ip);
    }
  }

  lemma {:induction false} LatestIsOne(us: seq<Update>, ip: nat)
    ensures Latest(us, ip).Some? ==> Latest(us, ip).value in us && Latest(us, ip).value.ip == ip
  {
    if us != [] { LatestIsOne(us[..|us| - 1], ip); }
  }

  lemma KeptWithinCapacity(us: seq<Update>, s: Slots, u: Update, t: Slots, ip: nat)
    requires NoDuplicates(s) && UpToDate(us, s) && Updated(s, u, t) && |Addresses(us + [u])| <= SLOTS
    requires forall a :: a in Addresses(us) ==> Holds(s, a)
    requires ip in Addresses(us + [u])
    ensures Holds(t, ip)
  {
    AddressesGrow(us, u);
    if ip == u.ip {
      var k: nat :| Chosen(s, u.ip, k) && t == s[k := Written(u)];
      assert Matches(t[k], ip);
    } else if !Holds(t, ip) {
      var i :| 0 <= i < SLOTS && Matches(s[i], ip);
      LostOnlyIfOldest(s, u, t, i);
      FullHolds(s, SLOTS);
      HeldAreSeen(us, s);
      SubsetSize(Held(s, SLOTS), Addresses(us));
      assert false;
    }
  }

  lemma {:induction false} SubsetSize(a: set<nat>, b: set<nat>)
    requires a <= b
    ensures |a| <= |b|
  {
    if a != {} {
      var x :| x in a;
      SubsetSize(a - {x}, b - {x});
    }
  }
}

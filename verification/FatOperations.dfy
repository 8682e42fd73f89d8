/** What the calls of kernel/fat.c mean, as functions of the files on a volume and the clusters it has lost. */
module FatOperations {
  import opened Common
  import opened Bytes
  import opened FatTable
  import opened FatNames
  import opened FatFiles
  import opened FatCatalog
  import opened FatCapacity

  const MAX_FILE_SIZE: nat := 256 * 1024

  datatype Operation =
    | Write(name: CString, buf: seq<Byte>)
    | Append(name: CString, buf: seq<Byte>, memOk: bool)
    | Copy(src: CString, dst: CString, memOk: bool)
    | Rename(src: CString, dst: CString)
    | Delete(name: CString)

  /** The files on a volume, and the clusters in use that belong to none of them. */
  datatype State = State(files: Files, lost: nat)

  /** The 11 bytes of a name, empty when the name is bad. */
  function KeyOf(name: CString): FileName { if FatName(name).Name? then FatName(name).bytes else [] }

  ghost function Lookup(files: Files, n: FileName): seq<Byte> { if n in files then files[n] else [] }

  ghost predicate OnFile(files: Files, name: CString) { FatName(name).Name? && FatName(name).bytes in files }

  /** The name does not start with the mark of a deleted entry. */
  predicate NotMarked(name: CString) { FatName(name).Name? ==> FatName(name).bytes[0] != DELETED }

  ghost function FreeIn(g: Geometry, s: State): int
    requires 1 <= g.spc
  {
    g.clusters - Demand(g, s.files) - s.lost
  }

  function Least(a: int, b: int): int { if a < b then a else b }

  /** After a write that succeeds: the file, or, under a marked name, nothing but the clusters it took. */
  ghost function Written(g: Geometry, s: State, name: CString, content: seq<Byte>): State
    requires 1 <= g.spc
  {
    if NotMarked(name) then s.(files := s.files[KeyOf(name) := content])
    else s.(lost := s.lost + Needed(g, |content|))
  }

  /** After a write of len bytes that fails without breaking a file: the clusters it took before it failed are lost. */
  ghost function Wasted(g: Geometry, s: State, len: nat): State
    requires 1 <= g.spc
  {
    var more := Least(Needed(g, len), FreeIn(g, s));
    s.(lost := s.lost + if 0 <= more then more else 0)
  }

  /** What a call asks fat_write_file to store, if it comes to that. */
  ghost function Asked(s: State, op: Operation): Option<(CString, seq<Byte>)>
  {
    match op
    case Write(name, buf) => if FatName(name).Name? then Some((name, buf)) else None
    case Append(name, buf, memOk) =>
      var content := Lookup(s.files, KeyOf(name)) + buf;
      if FatName(name).BadName? || (OnFile(s.files, name) && (MAX_FILE_SIZE < |content| || !memOk)) then None
      else Some((name, content))
    case Copy(src, dst, memOk) =>
      var content := Lookup(s.files, KeyOf(src));
      if SameIgnoringCase(src, dst) || FatName(dst).BadName? || !OnFile(s.files, src) then None
      else if MAX_FILE_SIZE < |content| || (content != [] && !memOk) then None
      else Some((dst, content))
    case Rename(_, _) => None
    case Delete(_) => None
  }

  ghost predicate Renames(s: State, src: CString, dst: CString)
  {
    !SameIgnoringCase(src, dst) && OnFile(s.files, src) && FatName(dst).Name? && !OnFile(s.files, dst)
  }

  /** When a call succeeds. */
  ghost predicate Accepts(g: Geometry, s: State, op: Operation)
    requires 1 <= g.spc
  {
    var ask := Asked(s, op);
    || (ask.Some? && Room(g, s.files, s.lost, KeyOf(ask.value.0), |ask.value.1|))
    || (op.Copy? && SameIgnoringCase(op.src, op.dst))
    || (op.Rename? && (SameIgnoringCase(op.src, op.dst) || Renames(s, op.src, op.dst)))
    || (op.Delete? && OnFile(s.files, op.name))
  }

  /** A write fails after it has freed the content it was to replace. */
  ghost predicate Breaks(g: Geometry, s: State, op: Operation)
    requires 1 <= g.spc
  {
    var ask := Asked(s, op);
    ask.Some? && !Accepts(g, s, op) && Lookup(s.files, KeyOf(ask.value.0)) != []
  }

  /** What a call that does not break a file leaves, whether it succeeds or not. */
  ghost function Effect(g: Geometry, s: State, op: Operation): State
    requires 1 <= g.spc
  {
    var ask := Asked(s, op);
    if ask.Some? then
      if Accepts(g, s, op) then Written(g, s, ask.value.0, ask.value.1) else Wasted(g, s, |ask.value.1|)
    else match op
      case Rename(src, dst) =>
        var a, content := KeyOf(src), Lookup(s.files, KeyOf(src));
        if Renames(s, src, dst) then Written(g, s.(files := s.files - {a}), dst, content) else s
      case Delete(name) => if OnFile(s.files, name) then s.(files := s.files - {KeyOf(name)}) else s
      case _ => s
  }

  ghost function Outcome(g: Geometry, s: State, ops: seq<Operation>): State
    requires 1 <= g.spc
  {
    if ops == [] then s else Effect(g, Outcome(g, s, ops[..|ops| - 1]), ops[|ops| - 1])
  }

  ghost predicate NeverBreaks(g: Geometry, s: State, ops: seq<Operation>)
    requires 1 <= g.spc
  {
    ops == [] ||
    (NeverBreaks(g, s, ops[..|ops| - 1]) && !Breaks(g, Outcome(g, s, ops[..|ops| - 1]), ops[|ops| - 1]))
  }

  lemma {:induction false} PrefixNeverBreaks(g: Geometry, s: State, ops: seq<Operation>, k: nat)
    requires 1 <= g.spc && k <= |ops| && NeverBreaks(g, s, ops)
    ensures NeverBreaks(g, s, ops[..k])
  {
    hide Breaks, Outcome;
    if k == |ops| {
      assert ops[..k] == ops;
    } else {
      PrefixNeverBreaks(g, s, ops[..|ops| - 1], k);
      assert ops[..|ops| - 1][..k] == ops[..k];
    }
  }

  // ---------------------------------------------------------------- runs that lose nothing

  /** The name that a call writes into the directory does not start with the mark of a deleted entry. */
  predicate Unmarked(op: Operation)
  {
    match op
    case Write(name, _) => NotMarked(name)
    case Append(name, _, _) => NotMarked(name)
    case Copy(_, dst, _) => NotMarked(dst)
    case Rename(_, dst) => NotMarked(dst)
    case Delete(_) => true
  }

  /** A call that writes succeeds, and under an unmarked name; other calls may fail. */
  ghost predicate Clean(g: Geometry, s: State, op: Operation)
    requires 1 <= g.spc
  {
    && (Asked(s, op).Some? ==> Accepts(g, s, op) && Unmarked(op))
    && (op.Rename? && Renames(s, op.src, op.dst) ==> Unmarked(op))
  }

  ghost predicate CleanRun(g: Geometry, s: State, ops: seq<Operation>)
    requires 1 <= g.spc
  {
    ops == [] ||
    (CleanRun(g, s, ops[..|ops| - 1]) && Clean(g, Outcome(g, s, ops[..|ops| - 1]), ops[|ops| - 1]))
  }

  lemma CleanCall(g: Geometry, s: State, op: Operation)
    requires 1 <= g.spc && Clean(g, s, op)
    ensures !Breaks(g, s, op) && Effect(g, s, op).lost == s.lost
  {
    hide FatName, Room, SameIgnoringCase, NotMarked;
  }

  /** Such a run breaks no file and loses no cluster. */
  lemma {:induction false} CleanRunLosesNothing(g: Geometry, s: State, ops: seq<Operation>)
    requires 1 <= g.spc && CleanRun(g, s, ops)
    ensures NeverBreaks(g, s, ops) && Outcome(g, s, ops).lost == s.lost
  {
    hide Clean, Breaks, Effect;
    if ops != [] {
      CleanRunLosesNothing(g, s, ops[..|ops| - 1]);
      CleanCall(g, Outcome(g, s, ops[..|ops| - 1]), ops[|ops| - 1]);
    }
  }

  /** A run in which every call succeeds and no name is marked is one. */
  lemma {:induction false} AcceptedIsClean(g: Geometry, s: State, ops: seq<Operation>)
    requires 1 <= g.spc && forall i :: 0 <= i < |ops| ==> Unmarked(ops[i])
    requires forall i :: 0 <= i < |ops| ==> Accepts(g, Outcome(g, s, ops[..i]), ops[i])
    ensures CleanRun(g, s, ops)
  {
    hide Accepts, Effect, Outcome, Unmarked, Asked, Renames;
    if ops != [] {
      var init := ops[..|ops| - 1];
      forall i | 0 <= i < |init| ensures Accepts(g, Outcome(g, s, init[..i]), init[i]) {
        assert init[..i] == ops[..i] && init[i] == ops[i];
      }
      AcceptedIsClean(g, s, init);
    }
  }

  /** Buffers have 32-bit lengths; the sum that fat_append_file forms must not wrap. */
  predicate WellFormed(op: Operation)
  {
    match op
    case Write(_, buf) => |buf| < WORD32
    case Append(_, buf, _) => |buf| < 0xC000_0000
    case Copy(_, _, _) => true
    case Rename(_, _) => true
    case Delete(_) => true
  }

  /** In 32 bits the size test of fat_append_file is right exactly when the sum does not wrap to a value that passes
      it. */
  lemma AppendTest(size: nat, len: nat)
    requires size < WORD32 && len < WORD32
    ensures ((size + len) % WORD32 <= MAX_FILE_SIZE <==> size + len <= MAX_FILE_SIZE) <==> !AppendWraps(size, len)
  {
    if WORD32 <= size + len { assert (size + len) % WORD32 == size + len - WORD32; }
  }

  predicate AppendWraps(size: nat, len: nat) { WORD32 <= size + len <= WORD32 + MAX_FILE_SIZE }

  /** Overwriting a file that is not empty with more than the volume has clusters breaks it. */
  lemma TooLargeBreaks(g: Geometry, s: State, name: CString, buf: seq<Byte>)
    requires 1 <= g.spc && OnFile(s.files, name) && s.files[KeyOf(name)] != [] && g.clusters * ClusterBytes(g) < |buf|
    ensures Breaks(g, s, Write(name, buf))
  {
    hide FatName, Room;
    TooLarge(g, s.files, s.lost, KeyOf(name), |buf|);
  }
}

/** The files that formatting puts on a fresh volume (kernel/fat.c:160-188). */
module FatSeeds {
  import opened Bytes
  import opened FatTable
  import opened FatNames
  import opened FatFiles
  import opened FatContent
  import opened FatCatalog
  import opened FatCapacity
  import opened FatOperations

  const SEED_SIZE: nat := 1024

  /** Between one and `max` upper-case letters. */
  predicate IsWord(w: seq<Byte>, max: nat) { 1 <= |w| <= max && forall i :: 0 <= i < |w| ==> 0x41 <= w[i] <= 0x5A }

  lemma WordParts(m: seq<Byte>, e: seq<Byte>)
    requires IsWord(m, 8) && IsWord(e, 3)
    ensures IsStem(m) && IsExtension(e)
  {
  }

  /** A stem and an extension in upper case, joined by a dot. */
  function PlainName(m: seq<Byte>, e: seq<Byte>): (name: CString)
    requires IsWord(m, 8) && IsWord(e, 3)
    ensures FatName(name) == Name(Pad(m, 8) + Pad(e, 3))
  {
    WordParts(m, e);
    JoinedParses(m, e);
    Joined(m, e)
  }

  function Hello(): (w: seq<Byte>)
    ensures IsWord(w, 8)
  {
    [0x48, 0x45, 0x4C, 0x4C, 0x4F]
  }

  function Readme(): (w: seq<Byte>)
    ensures IsWord(w, 8)
  {
    [0x52, 0x45, 0x41, 0x44, 0x4D, 0x45]
  }

  function Demo(): (w: seq<Byte>)
    ensures IsWord(w, 8)
  {
    [0x44, 0x45, 0x4D, 0x4F]
  }

  function Config(): (w: seq<Byte>)
    ensures IsWord(w, 8)
  {
    [0x43, 0x4F, 0x4E, 0x46, 0x49, 0x47]
  }

  function Txt(): (w: seq<Byte>)
    ensures IsWord(w, 3)
  {
    [0x54, 0x58, 0x54]
  }

  function Sh(): (w: seq<Byte>)
    ensures IsWord(w, 3)
  {
    [0x53, 0x48]
  }

  function Cfg(): (w: seq<Byte>)
    ensures IsWord(w, 3)
  {
    [0x43, 0x46, 0x47]
  }

  /** HELLO.TXT, README.TXT, DEMO.SH and CONFIG.CFG. */
  function HelloTxt(): CString { PlainName(Hello(), Txt()) }

  function ReadmeTxt(): CString { PlainName(Readme(), Txt()) }

  function DemoSh(): CString { PlainName(Demo(), Sh()) }

  function ConfigCfg(): CString { PlainName(Config(), Cfg()) }

  /** The content of CONFIG.CFG. */
  function Tiger(): seq<Byte> { [0x74, 0x69, 0x67, 0x65, 0x72] }

  lemma SeedsSpelled()
    ensures Spells(HelloTxt(), "HELLO" + "." + "TXT") && Spells(ReadmeTxt(), "README" + "." + "TXT")
    ensures Spells(DemoSh(), "DEMO" + "." + "SH") && Spells(ConfigCfg(), "CONFIG" + "." + "CFG")
    ensures Spells(Tiger(), "tiger")
  {
    hide FatName, PlainName;
    PlainSpelled(Hello(), "HELLO", Txt(), "TXT");
    PlainSpelled(Readme(), "README", Txt(), "TXT");
    PlainSpelled(Demo(), "DEMO", Sh(), "SH");
    PlainSpelled(Config(), "CONFIG", Cfg(), "CFG");
  }

  lemma PlainSpelled(m: seq<Byte>, stem: string, e: seq<Byte>, extension: string)
    requires IsWord(m, 8) && IsWord(e, 3) && Spells(m, stem) && Spells(e, extension)
    ensures Spells(PlainName(m, e), stem + "." + extension)
  {
    hide FatName;
  }

  /** The four files, with the texts of the first three given. */
  ghost function SeedFiles(hello: seq<Byte>, readme: seq<Byte>, demo: seq<Byte>): Files
  {
    var two: Files := map[][KeyOf(HelloTxt()) := hello][KeyOf(ReadmeTxt()) := readme];
    two[KeyOf(DemoSh()) := demo][KeyOf(ConfigCfg()) := Tiger()]
  }

  lemma SeedNameGood(m: seq<Byte>, e: seq<Byte>)
    requires IsWord(m, 8) && IsWord(e, 3)
    ensures FatName(PlainName(m, e)).Name? && NotMarked(PlainName(m, e))
  {
    hide FatName;
    assert (Pad(m, 8) + Pad(e, 3))[0] == m[0];
  }

  lemma SeedNamesGood()
    ensures FatName(HelloTxt()).Name? && NotMarked(HelloTxt()) && FatName(ReadmeTxt()).Name? && NotMarked(ReadmeTxt())
    ensures FatName(DemoSh()).Name? && NotMarked(DemoSh()) && FatName(ConfigCfg()).Name? && NotMarked(ConfigCfg())
  {
    hide FatName, PlainName, Hello, Readme, Demo, Config, Txt, Sh, Cfg;
    SeedNameGood(Hello(), Txt());
    SeedNameGood(Readme(), Txt());
    SeedNameGood(Demo(), Sh());
    SeedNameGood(Config(), Cfg());
  }

  lemma SeedKey(m: seq<Byte>, e: seq<Byte>)
    requires IsWord(m, 8) && IsWord(e, 3)
    ensures |KeyOf(PlainName(m, e))| == 11 && KeyOf(PlainName(m, e))[0] == m[0]
  {
    hide FatName;
    assert (Pad(m, 8) + Pad(e, 3))[0] == m[0];
  }

  /** The four names differ, so these are four files with the contents given. */
  lemma FourSeeds(hello: seq<Byte>, readme: seq<Byte>, demo: seq<Byte>)
    ensures var files := SeedFiles(hello, readme, demo);
            && |files| == 4
            && Lookup(files, KeyOf(HelloTxt())) == hello && Lookup(files, KeyOf(ReadmeTxt())) == readme
            && Lookup(files, KeyOf(DemoSh())) == demo && Lookup(files, KeyOf(ConfigCfg())) == Tiger()
  {
    hide FatName, PlainName, KeyOf, Txt, Sh, Cfg;
    SeedKey(Hello(), Txt());
    SeedKey(Readme(), Txt());
    SeedKey(Demo(), Sh());
    SeedKey(Config(), Cfg());
    var a, b, c, d := KeyOf(HelloTxt()), KeyOf(ReadmeTxt()), KeyOf(DemoSh()), KeyOf(ConfigCfg());
    assert a[0] == 0x48 && b[0] == 0x52 && c[0] == 0x44 && d[0] == 0x43;
    FourKeys(a, hello, b, readme, c, demo, d, Tiger());
  }

  lemma FourKeys(a: FileName, p: seq<Byte>, b: FileName, q: seq<Byte>, c: FileName, r: seq<Byte>,
                 d: FileName, t: seq<Byte>)
    requires a != b && a != c && a != d && b != c && b != d && c != d
    ensures var files: Files := map[][a := p][b := q][c := r][d := t];
            |files| == 4 && files[a] == p && files[b] == q && files[c] == r && files[d] == t
  {
    var none: Files := map[];
    var one := none[a := p];
    var two := one[b := q];
    var three := two[c := r];
    assert one.Keys == {a} && two.Keys == {a, b} && three.Keys == {a, b, c};
    assert three[d := t].Keys == {a, b, c, d};
  }

  /** At most k small files and nothing lost. */
  ghost predicate Small(s: State, k: nat)
  {
    s.lost == 0 && |s.files| <= k && forall n :: n in s.files ==> |s.files[n]| <= SEED_SIZE
  }

  lemma QuotientBelow(x: nat, b: nat, k: nat)
    requires 1 <= b && x < k * b
    ensures x / b < k
  {
    var q := x / b;
    assert x == b * q + x % b;
    assert k <= q ==> k * b <= q * b;
  }

  lemma NeededSmall(g: Geometry, len: nat)
    requires 1 <= g.spc && len <= SEED_SIZE
    ensures Needed(g, len) <= 2
  {
    QuotientBelow(len + ClusterBytes(g) - 1, ClusterBytes(g), 3);
  }

  lemma {:induction false} DemandSmall(g: Geometry, files: Files)
    requires 1 <= g.spc && forall n :: n in files ==> |files[n]| <= SEED_SIZE
    ensures Demand(g, files) <= 2 * |files|
    decreases |files|
  {
    hide Needed;
    if files != map[] {
      var n :| n in files;
      FewerFiles(files, n);
      DemandWithout(g, files, n);
      NeededSmall(g, |files[n]|);
      DemandSmall(g, files - {n});
    }
  }

  /** Eight clusters and four slots have room for four small files. */
  lemma SeedFits(g: Geometry, s: State, k: nat, n: FileName, content: seq<Byte>)
    requires 1 <= g.spc && 8 <= g.clusters && 4 <= Slots(g) && k <= 3 && Small(s, k) && |content| <= SEED_SIZE
    ensures Room(g, s.files, s.lost, n, |content|) && Small(s.(files := s.files[n := content]), k + 1)
  {
    hide Needed, Demand;
    NeededSmall(g, |content|);
    if n in s.files {
      FewerFiles(s.files, n);
      assert s.files[n := content].Keys == s.files.Keys;
    } else {
      assert s.files - {n} == s.files;
      assert s.files[n := content].Keys == s.files.Keys + {n};
    }
    DemandSmall(g, s.files - {n});
  }
}

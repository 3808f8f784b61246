/**
 The redundant environment in flash (uboot/common/env_flash.c, CFG_ENV_ADDR_REDUND): two sectors
 with a checksum and an active/obsolete flag each, written so that power may fail at any moment.
 */
module EnvFlash {

  datatype Option<T> = None | Some(value: T)

  type Bytes = seq<bv8>

  /** The checksum over the data part. */
  type Crc = Bytes -> bv32

  datatype Sector = Sector(crc: bv32, flag: bv8, data: Bytes)

  const ACTIVE: bv8 := 1
  const OBSOLETE: bv8 := 0
  const ERASED: bv8 := 0xFF
  const ERASED_WORD: bv32 := 0xFFFF_FFFF

  predicate Ok(crc: Crc, s: Sector) { crc(s.data) == s.crc }

  // ---- flash: erasing sets every bit, programming can only clear bits ------------------------------

  function ErasedData(n: nat): (d: Bytes)
    ensures |d| == n && forall i :: 0 <= i < n ==> d[i] == 0xFF
  {
    seq(n, _ => 0xFF)
  }

  function ErasedSector(n: nat): Sector { Sector(ERASED_WORD, ERASED, ErasedData(n)) }

  function Program(was: Bytes, d: Bytes): (r: Bytes)
    requires |was| == |d|
    ensures |r| == |d| && forall i :: 0 <= i < |d| ==> r[i] == was[i] & d[i]
  {
    seq(|d|, i requires 0 <= i < |d| => was[i] & d[i])
  }

  lemma ProgramErased(d: Bytes)
    ensures Program(ErasedData(|d|), d) == d
  {
    forall i | 0 <= i < |d| ensures Program(ErasedData(|d|), d)[i] == d[i] { AllOnes(d[i]); }
  }

  lemma AllOnes(b: bv8)
    ensures 0xFF & b == b
  {
  }

  lemma AllOnesWord(w: bv32)
    ensures 0xFFFF_FFFF & w == w
  {
  }

  // ---- env_init ----------------------------------------------------------------------------------

  datatype Pick = Pick(addr: Option<nat>, valid: nat)

  /** Which sector env_init selects; none leaves the default environment. The last case is the one
      that no branch of env_init covers: the cleared fields of the global data stay as they are. */
  function EnvInit(crc: Crc, f: seq<Sector>): (p: Pick)
    requires |f| == 2
    ensures p.valid == 0 <==> p.addr == None
    ensures p.addr.Some? ==> p.addr.value < 2 && Ok(crc, f[p.addr.value])
  {
    var flag1, flag2, ok1, ok2 := f[0].flag, f[1].flag, Ok(crc, f[0]), Ok(crc, f[1]);
    if ok1 && !ok2 then Pick(Some(0), 1)
    else if !ok1 && ok2 then Pick(Some(1), 1)
    else if !ok1 && !ok2 then Pick(None, 0)
    else if flag1 == ACTIVE && flag2 == OBSOLETE then Pick(Some(0), 1)
    else if flag1 == OBSOLETE && flag2 == ACTIVE then Pick(Some(1), 1)
    else if flag1 == flag2 then Pick(Some(0), 2)
    else if flag1 == ERASED then Pick(Some(0), 2)
    else if flag2 == ERASED then Pick(Some(1), 2)
    else Pick(None, 0)
  }

  /** Of two good copies the one is selected that is fresh, or else active while the other one is obsolete; with equal
      flags it is the first one, and with any other flags none. */
  lemma EnvInitPrefers(crc: Crc, f: seq<Sector>, i: nat)
    requires |f| == 2 && i < 2 && Ok(crc, f[i])
    ensures !Ok(crc, f[1 - i]) ==> EnvInit(crc, f) == Pick(Some(i), 1)
    ensures Ok(crc, f[1 - i]) ==>
              var a, b := f[i].flag, f[1 - i].flag;
              && (EnvInit(crc, f).addr == Some(i) <==> if a == b then i == 0 else a == 0xFF || (a == 1 && b == 0))
              && (EnvInit(crc, f).addr == None <==> a != b && 0xFF !in {a, b} && {a, b} != {0, 1})
              && EnvInit(crc, f).valid == if EnvInit(crc, f).addr == None then 0 else if {a, b} == {0, 1} then 1 else 2
  {
    if f[i].flag != f[1 - i].flag && {f[i].flag, f[1 - i].flag} == {0, 1} {
      assert f[i].flag in {0, 1} && f[1 - i].flag in {0, 1};
    }
  }

  /** The data that the next boot will find. */
  function Choice(crc: Crc, f: seq<Sector>): Option<Bytes>
    requires |f| == 2
  {
    match EnvInit(crc, f).addr
    case None => None
    case Some(i) => Some(f[i].data)
  }

  // ---- whole runs ----------------------------------------------------------------------------------

  /** Power fails after a number of flash operations: right before the next one, or in the middle of
      it, which leaves a sector whose checksum fails. A flag is a single byte and never torn. */
  datatype Cut = Cut(steps: nat, torn: Option<Sector>)

  datatype Save = Save(data: Bytes, cut: Option<Cut>)

  /** From one boot to the next. Power may fail while booting, else the saves follow, and the power
      fails in one of them or after all of them. */
  datatype Session = Session(bootCut: Option<nat>, saves: seq<Save>)

  predicate LegalCut(crc: Crc, n: nat, c: Cut)
  {
    c.steps < 5 && (c.torn.Some? ==> c.steps < 3 && !Ok(crc, c.torn.value) && |c.torn.value.data| == n)
  }

  predicate LegalSave(crc: Crc, n: nat, s: Save)
  {
    |s.data| == n && (s.cut.Some? ==> LegalCut(crc, n, s.cut.value))
  }

  predicate LegalSession(crc: Crc, n: nat, s: Session)
  {
    forall k :: 0 <= k < |s.saves| ==> LegalSave(crc, n, s.saves[k])
  }

  /** A save takes effect when its checksum is written: after erasing and writing the data. Data whose
      checksum is the erased word takes effect as soon as it is written. */
  predicate Commits(crc: Crc, s: Save)
  {
    s.cut.None? || s.cut.value.steps >= 3 ||
    (s.cut.value.steps == 2 && s.cut.value.torn.None? && crc(s.data) == ERASED_WORD)
  }

  /** The data of the last save that took effect. */
  function LastSaved(crc: Crc, c: Option<Bytes>, saves: seq<Save>): Option<Bytes>
    decreases |saves|
  {
    if saves == [] then c
    else
      var c' := if Commits(crc, saves[0]) then Some(saves[0].data) else c;
      if saves[0].cut.None? then LastSaved(crc, c', saves[1..]) else c'
  }

  function LastOfSessions(crc: Crc, c: Option<Bytes>, sessions: seq<Session>): Option<Bytes>
    decreases |sessions|
  {
    if sessions == [] then c
    else
      LastOfSessions(crc, if sessions[0].bootCut.Some? then c else LastSaved(crc, c, sessions[0].saves), sessions[1..])
  }

  // ---- what the operations do to the two sectors ----------------------------------------------------

  /** The two sectors after k operations of a save from sector cur to the other one. */
  function SaveStep(n: nat, f: seq<Sector>, cur: nat, d: Bytes, w: bv32, k: nat): (g: seq<Sector>)
    requires |f| == 2 && cur < 2
    ensures |g| == 2
  {
    var new_ := 1 - cur;
    if k == 0 then f
    else if k == 1 then f[new_ := ErasedSector(n)]
    else if k == 2 then f[new_ := Sector(ERASED_WORD, ERASED, d)]
    else if k == 3 then f[new_ := Sector(w, ERASED, d)]
    else if k == 4 then f[new_ := Sector(w, ERASED, d)][cur := f[cur].(flag := OBSOLETE)]
    else f[new_ := Sector(w, ACTIVE, d)][cur := f[cur].(flag := OBSOLETE)]
  }

  /** The operation that power failure interrupts leaves a torn sector; only erasing touches the flag. */
  function Torn(f: seq<Sector>, new_: nat, k: nat, torn: Option<Sector>): (g: seq<Sector>)
    requires |f| == 2 && new_ < 2
    ensures |g| == 2
  {
    match torn
    case None => f
    case Some(t) => f[new_ := if k == 0 then t else t.(flag := f[new_].flag)]
  }

  function SaveFlash(crc: Crc, n: nat, f: seq<Sector>, cur: nat, s: Save): (g: seq<Sector>)
    requires |f| == 2 && cur < 2
    ensures |g| == 2
  {
    match s.cut
    case None => SaveStep(n, f, cur, s.data, crc(s.data), 5)
    case Some(c) => Torn(SaveStep(n, f, cur, s.data, crc(s.data), c.steps), 1 - cur, c.steps, c.torn)
  }

  /** The two flag writes with which env_relocate_spec repairs the flags, of which k happen. */
  function Repair(crc: Crc, f: seq<Sector>, cur: nat, k: nat): (g: seq<Sector>)
    requires |f| == 2 && cur < 2
    ensures |g| == 2 && forall i :: 0 <= i < 2 ==> g[i].data == f[i].data && g[i].crc == f[i].crc
  {
    var new_ := 1 - cur;
    var retire := f[new_].flag != OBSOLETE && Ok(crc, f[new_]);
    var g := if retire && k >= 1 then f[new_ := f[new_].(flag := OBSOLETE)] else f;
    var activate := f[cur].flag != ACTIVE && f[cur].flag & ACTIVE == ACTIVE;
    if activate && k >= (if retire then 2 else 1) then g[cur := g[cur].(flag := ACTIVE)] else g
  }

  /** The sectors after a boot in which k flash operations happen. */
  function BootFlash(crc: Crc, f: seq<Sector>, k: nat): (g: seq<Sector>)
    requires |f| == 2
    ensures |g| == 2
  {
    match EnvInit(crc, f).addr
    case None => f
    case Some(i) => Repair(crc, f, i, k)
  }

  /** `flash_addr` after a boot. */
  function BootCurrent(crc: Crc, f: seq<Sector>): (cur: nat)
    requires |f| == 2
    ensures cur < 2
  {
    match EnvInit(crc, f).addr
    case None => 0
    case Some(i) => i
  }

  function SavesFlash(crc: Crc, n: nat, f: seq<Sector>, cur: nat, saves: seq<Save>): (g: seq<Sector>)
    requires |f| == 2 && cur < 2
    ensures |g| == 2
    decreases |saves|
  {
    if saves == [] then f
    else if saves[0].cut.Some? then SaveFlash(crc, n, f, cur, saves[0])
    else SavesFlash(crc, n, SaveFlash(crc, n, f, cur, saves[0]), 1 - cur, saves[1..])
  }

  function SessionFlash(crc: Crc, n: nat, f: seq<Sector>, s: Session): (g: seq<Sector>)
    requires |f| == 2
    ensures |g| == 2
  {
    match s.bootCut
    case Some(k) => BootFlash(crc, f, k)
    case None => SavesFlash(crc, n, BootFlash(crc, f, 2), BootCurrent(crc, f), s.saves)
  }

  function RunFlash(crc: Crc, n: nat, f: seq<Sector>, sessions: seq<Session>): (g: seq<Sector>)
    requires |f| == 2
    ensures |g| == 2
    decreases |sessions|
  {
    if sessions == [] then f else RunFlash(crc, n, SessionFlash(crc, n, f, sessions[0]), sessions[1..])
  }

  // ---- crash safety ----------------------------------------------------------------------------------

  /** Flag pairs, of two sectors with good checksums, that the protocol can rely on. */
  predicate GoodFlags(a: bv8, b: bv8)
  {
    || (a == ACTIVE && b == OBSOLETE) || (a == OBSOLETE && b == ACTIVE)
    || (a == b && (a == OBSOLETE || a == ACTIVE || a == ERASED))
    || (a != b && (a == ERASED || b == ERASED))
  }

  predicate Sound(crc: Crc, f: seq<Sector>)
    requires |f| == 2
  {
    Ok(crc, f[0]) && Ok(crc, f[1]) ==> GoodFlags(f[0].flag, f[1].flag)
  }

  /** While the system runs: the current sector is not mistaken for a fresh copy, */
  predicate Armed(crc: Crc, f: seq<Sector>, cur: nat)
    requires |f| == 2 && cur < 2
  {
    Ok(crc, f[cur]) ==> f[cur].flag != ERASED
  }

  /** and it is the one that a boot would select. */
  predicate Settled(crc: Crc, f: seq<Sector>, cur: nat)
    requires |f| == 2 && cur < 2
  {
    Armed(crc, f, cur) && EnvInit(crc, f).addr == if Ok(crc, f[cur]) then Some(cur) else None
  }

  /** An erased sector fails its checksum. */
  predicate ErasedFails(crc: Crc, n: nat) { crc(ErasedData(n)) != ERASED_WORD }

  lemma ActiveBit(x: bv8)
    ensures x & ACTIVE == ACTIVE ==> x & ACTIVE == 1
    ensures ERASED & ACTIVE == ACTIVE
  {
  }

  /** After any complete boot the system is armed, whatever the flash held. */
  lemma BootArms(crc: Crc, f: seq<Sector>)
    requires |f| == 2
    ensures Armed(crc, BootFlash(crc, f, 2), BootCurrent(crc, f))
  {
    ActiveBit(f[0].flag);
    ActiveBit(f[1].flag);
  }

  /** The flags after repair: the other copy is retired before this one is activated. */
  lemma RepairPicks(crc: Crc, f: seq<Sector>, i: nat, k: nat)
    requires |f| == 2 && i < 2 && Sound(crc, f) && EnvInit(crc, f).addr == Some(i)
    ensures var g := Repair(crc, f, i, k); Sound(crc, g) && EnvInit(crc, g).addr == Some(i)
  {
    ActiveBit(f[i].flag);
    var g := Repair(crc, f, i, k);
    assert Ok(crc, g[0]) == Ok(crc, f[0]) && Ok(crc, g[1]) == Ok(crc, f[1]);
    if Ok(crc, f[0]) && Ok(crc, f[1]) {
      if i == 0 {
        RepairFlags(f[0].flag, f[1].flag, g[0].flag, g[1].flag);
      } else {
        RepairFlags(f[1].flag, f[0].flag, g[1].flag, g[0].flag);
      }
    }
  }

  lemma RepairFlags(a: bv8, b: bv8, a': bv8, b': bv8)
    requires GoodFlags(a, b) && (b == a || a == ERASED || (a == ACTIVE && b == OBSOLETE))
    requires b' == b || b' == OBSOLETE
    requires a' == a || (a & ACTIVE == ACTIVE && a' == ACTIVE && b' == OBSOLETE)
    ensures GoodFlags(a', b') && (a' == b' ==> a == b) && (a' == b' || a' == ERASED || (a' == ACTIVE && b' == OBSOLETE))
  {
  }

  /** A boot, interrupted or not, repairs flags without changing what is selected. */
  lemma BootKeeps(crc: Crc, f: seq<Sector>, k: nat)
    requires |f| == 2 && Sound(crc, f)
    ensures Sound(crc, BootFlash(crc, f, k)) && Choice(crc, BootFlash(crc, f, k)) == Choice(crc, f)
    ensures k >= 2 ==> Settled(crc, BootFlash(crc, f, k), BootCurrent(crc, f))
  {
    BootArms(crc, f);
    match EnvInit(crc, f).addr
    case None =>
    case Some(i) => RepairPicks(crc, f, i, k);
  }

  /** A save that takes effect is found by the next boot, wherever power fails afterwards. */
  lemma SaveCommits(crc: Crc, n: nat, f: seq<Sector>, cur: nat, s: Save)
    requires |f| == 2 && cur < 2 && Armed(crc, f, cur) && LegalSave(crc, n, s) && Commits(crc, s)
    ensures var g := SaveFlash(crc, n, f, cur, s);
      Sound(crc, g) && Choice(crc, g) == Some(s.data) && (s.cut.None? ==> Settled(crc, g, 1 - cur))
  {
  }

  /** A save that does not take effect changes nothing a boot can see. */
  lemma SaveAborts(crc: Crc, n: nat, f: seq<Sector>, cur: nat, s: Save)
    requires |f| == 2 && cur < 2 && Settled(crc, f, cur) && Sound(crc, f) && LegalSave(crc, n, s) && !Commits(crc, s) &&
             ErasedFails(crc, n)
    ensures var g := SaveFlash(crc, n, f, cur, s); Sound(crc, g) && Choice(crc, g) == Choice(crc, f)
  {
    var g, c := SaveFlash(crc, n, f, cur, s), s.cut.value;
    if c.steps > 0 || c.torn.Some? {
      assert g[cur] == f[cur] && !Ok(crc, g[1 - cur]);
      OtherFails(crc, f, g, cur);
    }
  }

  /** With a failing copy beside it, the current one is selected as before. */
  lemma OtherFails(crc: Crc, f: seq<Sector>, g: seq<Sector>, cur: nat)
    requires |f| == |g| == 2 && cur < 2 && Settled(crc, f, cur) && g[cur] == f[cur] && !Ok(crc, g[1 - cur])
    ensures Sound(crc, g) && Choice(crc, g) == Choice(crc, f)
  {
  }

  lemma {:induction false} SavesAtomic(crc: Crc, n: nat, f: seq<Sector>, cur: nat, saves: seq<Save>)
    requires |f| == 2 && cur < 2 && Settled(crc, f, cur) && Sound(crc, f) && ErasedFails(crc, n)
    requires forall k :: 0 <= k < |saves| ==> LegalSave(crc, n, saves[k])
    ensures var g := SavesFlash(crc, n, f, cur, saves);
      Sound(crc, g) && Choice(crc, g) == LastSaved(crc, Choice(crc, f), saves)
    decreases |saves|
  {
    if saves != [] {
      if Commits(crc, saves[0]) {
        SaveCommits(crc, n, f, cur, saves[0]);
      } else {
        SaveAborts(crc, n, f, cur, saves[0]);
      }
      if saves[0].cut.None? {
        SavesAtomic(crc, n, SaveFlash(crc, n, f, cur, saves[0]), 1 - cur, saves[1..]);
      }
    }
  }

  /** Over any run of boots and saves, each cut by power failure anywhere, a boot finds exactly the
      data of the last save that took effect, or what was there before. */
  lemma {:induction false} CrashAtomic(crc: Crc, n: nat, f: seq<Sector>, sessions: seq<Session>)
    requires |f| == 2 && Sound(crc, f) && ErasedFails(crc, n)
    requires forall k :: 0 <= k < |sessions| ==> LegalSession(crc, n, sessions[k])
    ensures var g := RunFlash(crc, n, f, sessions);
      Sound(crc, g) && Choice(crc, g) == LastOfSessions(crc, Choice(crc, f), sessions)
    decreases |sessions|
  {
    if sessions != [] {
      var s := sessions[0];
      match s.bootCut {
        case Some(k) => BootKeeps(crc, f, k);
        case None =>
          BootKeeps(crc, f, 2);
          SavesAtomic(crc, n, BootFlash(crc, f, 2), BootCurrent(crc, f), s.saves);
      }
      CrashAtomic(crc, n, SessionFlash(crc, n, f, s), sessions[1..]);
    }
  }

  // ---- flash with foreign contents --------------------------------------------------------------------

  /** A save that does not take effect is the last of its session. */
  ghost predicate AnySaveCommits(crc: Crc, saves: seq<Save>) { saves != [] && Commits(crc, saves[0]) }

  ghost predicate AnyCommits(crc: Crc, sessions: seq<Session>)
  {
    sessions != [] &&
    ((sessions[0].bootCut.None? && AnySaveCommits(crc, sessions[0].saves)) || AnyCommits(crc, sessions[1..]))
  }

  /** What was saved before does not matter once a save takes effect. */
  lemma SavedForgets(crc: Crc, c: Option<Bytes>, d: Option<Bytes>, saves: seq<Save>)
    requires AnySaveCommits(crc, saves)
    ensures LastSaved(crc, c, saves) == LastSaved(crc, d, saves)
  {
  }

  lemma {:induction false} SavesCommit(crc: Crc, n: nat, f: seq<Sector>, cur: nat, saves: seq<Save>, c: Option<Bytes>)
    requires |f| == 2 && cur < 2 && Armed(crc, f, cur) && ErasedFails(crc, n) && AnySaveCommits(crc, saves)
    requires forall k :: 0 <= k < |saves| ==> LegalSave(crc, n, saves[k])
    ensures var g := SavesFlash(crc, n, f, cur, saves); Sound(crc, g) && Choice(crc, g) == LastSaved(crc, c, saves)
  {
    SaveCommits(crc, n, f, cur, saves[0]);
    if saves[0].cut.None? {
      SavesAtomic(crc, n, SaveFlash(crc, n, f, cur, saves[0]), 1 - cur, saves[1..]);
    }
  }

  lemma {:induction false} RunForgets(crc: Crc, c: Option<Bytes>, d: Option<Bytes>, sessions: seq<Session>)
    requires AnyCommits(crc, sessions)
    ensures LastOfSessions(crc, c, sessions) == LastOfSessions(crc, d, sessions)
    decreases |sessions|
  {
    var s := sessions[0];
    if s.bootCut.None? && AnySaveCommits(crc, s.saves) {
      SavedForgets(crc, c, d, s.saves);
    } else {
      RunForgets(
        crc,
        if s.bootCut.Some? then c else LastSaved(crc, c, s.saves),
        if s.bootCut.Some? then d else LastSaved(crc, d, s.saves),
        sessions[1..]);
    }
  }

  /** From any contents of the flash, once a save has taken effect the boot finds the last one. */
  lemma {:induction false} CommittedFound(crc: Crc, n: nat, f: seq<Sector>, sessions: seq<Session>)
    requires |f| == 2 && ErasedFails(crc, n) && AnyCommits(crc, sessions)
    requires forall k :: 0 <= k < |sessions| ==> LegalSession(crc, n, sessions[k])
    ensures Choice(crc, RunFlash(crc, n, f, sessions)) == LastOfSessions(crc, None, sessions)
    decreases |sessions|
  {
    var s := sessions[0];
    var g := SessionFlash(crc, n, f, s);
    if s.bootCut.None? && AnySaveCommits(crc, s.saves) {
      BootArms(crc, f);
      SavesCommit(crc, n, BootFlash(crc, f, 2), BootCurrent(crc, f), s.saves, None);
      CrashAtomic(crc, n, g, sessions[1..]);
    } else {
      CommittedFound(crc, n, g, sessions[1..]);
      RunForgets(crc, None, if s.bootCut.Some? then None else LastSaved(crc, None, s.saves), sessions[1..]);
    }
  }

  function Failing(crc: Crc, n: nat): (t: Sector)
    ensures !Ok(crc, t) && |t.data| == n
  {
    Sector(crc(ErasedData(n)) ^ 1, ERASED, ErasedData(n))
  }

  /** Sound is exactly what is needed: other flags lead to a run, without any save that takes effect,
      after which the boot finds something else than before. */
  lemma UnsoundFails(crc: Crc, n: nat, f: seq<Sector>) returns (s: Session)
    requires |f| == 2 && !Sound(crc, f) && ErasedFails(crc, n)
    ensures LegalSession(crc, n, s) && Choice(crc, RunFlash(crc, n, f, [s])) != LastOfSessions(crc, Choice(crc, f), [s])
  {
    if f[0].flag == f[1].flag {
      s := Session(Some(1), []);
    } else {
      s := Session(None, [Save(ErasedData(n), Some(Cut(0, Some(Failing(crc, n)))))]);
    }
    var g := SessionFlash(crc, n, f, s);
    assert RunFlash(crc, n, f, [s]) == g;
  }

  // ---- the code -------------------------------------------------------------------------------------------

  ghost predicate Sized(f: seq<Sector>, n: nat) { |f| == 2 && |f[0].data| == n && |f[1].data| == n }

  class RedundantEnv {
    const crc: Crc
    /** ENV_SIZE, and the default environment padded to it */
    const n: nat
    const defaults: Bytes

    var flash: seq<Sector>
    /** Which sector `flash_addr` points to; `flash_addr_new` points to the other one. */
    var cur: nat
    /** `gd->env_addr` and `gd->env_valid` */
    var gd: Pick
    /** The copy of the environment in memory. */
    var env: Sector

    /** Is there power, and when will it fail? */
    var up: bool
    var cut: Option<Cut>

    ghost predicate Valid()
      reads this
    {
      Sized(flash, n) && cur < 2 && |defaults| == n && (up ==> |env.data| == n && Ok(crc, env))
    }

    constructor (crc: Crc, defaults: Bytes, flash: seq<Sector>)
      requires Sized(flash, |defaults|)
      ensures Valid() && !up && this.flash == flash && this.crc == crc && n == |defaults|
    {
      this.crc, this.n, this.defaults, this.flash := crc, |defaults|, defaults, flash;
      cur, gd, env, up, cut := 0, Pick(None, 0), Sector(0, 0, []), false, None;
    }

    /** Counts a flash operation; false when power fails before it is complete. */
    method Powered() returns (go: bool)
      modifies this`up, this`cut
      ensures go == (old(up) && (old(cut).None? || old(cut).value.steps > 0)) && up == go
      ensures cut == if go && old(cut).Some? then Some(old(cut).value.(steps := old(cut).value.steps - 1)) else old(cut)
    {
      go := up && (cut.None? || cut.value.steps > 0);
      up := go;
      if go && cut.Some? {
        cut := Some(cut.value.(steps := cut.value.steps - 1));
      }
    }

    ghost predicate Falls()
      reads this
    {
      up && cut.Some? && cut.value.steps == 0
    }

    /** `flash_sect_erase` */
    method Erase(i: nat)
      requires |flash| == 2 && i < 2
      modifies this`flash, this`up, this`cut
      ensures old(Falls()) ==> !up && flash == Torn(old(flash), i, 0, old(cut).value.torn)
      ensures !old(up) ==> !up && flash == old(flash)
      ensures old(up && !Falls()) ==> up && flash == old(flash)[i := ErasedSector(n)]
      ensures cut == if old(cut).Some? && up then Some(old(cut).value.(steps := old(cut).value.steps - 1)) else old(cut)
    {
      var was := up;
      var go := Powered();
      if go {
        flash := flash[i := ErasedSector(n)];
      } else if was && cut.value.torn.Some? {
        flash := flash[i := cut.value.torn.value];
      }
    }

    /** `flash_write` of a changed sector; the flag survives a torn write of another field. */
    method Write(i: nat, s: Sector)
      requires |flash| == 2 && i < 2
      modifies this`flash, this`up, this`cut
      ensures old(Falls()) ==> !up && flash == Torn(old(flash), i, 1, old(cut).value.torn)
      ensures !old(up) ==> !up && flash == old(flash)
      ensures old(up && !Falls()) ==> up && flash == old(flash)[i := s]
      ensures cut == if old(cut).Some? && up then Some(old(cut).value.(steps := old(cut).value.steps - 1)) else old(cut)
    {
      var was := up;
      var go := Powered();
      if go {
        flash := flash[i := s];
      } else if was && cut.value.torn.Some? {
        flash := flash[i := cut.value.torn.value.(flag := flash[i].flag)];
      }
    }

    /** The k-th operation of a save that began with sectors f and is to be cut at c is over. */
    ghost predicate InSave(f: seq<Sector>, c: Option<Cut>, k: nat)
      requires |f| == 2 && cur < 2
      reads this
    {
      if c.Some? && c.value.steps < k then
        !up &&
        flash == Torn(SaveStep(n, f, cur, env.data, env.crc, c.value.steps), 1 - cur, c.value.steps, c.value.torn)
      else
        && up && flash == SaveStep(n, f, cur, env.data, env.crc, k)
        && cut == if c.Some? then Some(c.value.(steps := c.value.steps - k)) else None
    }

    /** One write of `saveenv`. */
    method WriteStep(i: nat, s: Sector, ghost f: seq<Sector>, ghost c: Option<Cut>, ghost k: nat)
      requires |flash| == 2 && cur < 2 && i < 2 && |f| == 2 && InSave(f, c, k) && k >= 1
      requires up ==> flash[i := s] == SaveStep(n, f, cur, env.data, env.crc, k + 1)
      requires i == 1 - cur || (c.Some? && c.value.steps == k ==> c.value.torn.None?)
      modifies this`flash, this`up, this`cut
      ensures |flash| == 2 && InSave(f, c, k + 1)
    {
      Write(i, s);
    }

    /** `saveenv` (lines 154-256) */
    method SaveEnv()
      requires Valid() && up && (cut.Some? ==> LegalCut(crc, n, cut.value))
      modifies this`flash, this`up, this`cut, this`cur
      ensures Valid() && up == old(cut).None? && (up ==> cut.None?)
      ensures flash == SaveFlash(crc, n, old(flash), old(cur), Save(env.data, old(cut)))
      ensures cur == if up then 1 - old(cur) else old(cur)
    {
      ghost var f, c := flash, cut;
      Erase(1 - cur);
      WriteCopy(f, c);
      WriteFlags(f, c);
      if up {
        cur := 1 - cur;
      }
    }

    /** Data and checksum (lines 205-210) */
    method WriteCopy(ghost f: seq<Sector>, ghost c: Option<Cut>)
      requires Valid() && |env.data| == n && |f| == 2 && InSave(f, c, 1)
      modifies this`flash, this`up, this`cut
      ensures |flash| == 2 && InSave(f, c, 3)
    {
      WriteData(f, c);
      AllOnesWord(env.crc);
      var s := flash[1 - cur];
      WriteStep(1 - cur, s.(crc := s.crc & env.crc), f, c, 2);
    }

    method WriteData(ghost f: seq<Sector>, ghost c: Option<Cut>)
      requires Valid() && |env.data| == n && |f| == 2 && InSave(f, c, 1)
      modifies this`flash, this`up, this`cut
      ensures |flash| == 2 && InSave(f, c, 2)
    {
      ProgramErased(env.data);
      var s := flash[1 - cur];
      WriteStep(1 - cur, s.(data := Program(s.data, env.data)), f, c, 1);
    }

    /** First the old copy becomes obsolete, then the new one active (lines 211-216). */
    method WriteFlags(ghost f: seq<Sector>, ghost c: Option<Cut>)
      requires Valid() && |f| == 2 && InSave(f, c, 3) && (c.Some? ==> LegalCut(crc, n, c.value))
      modifies this`flash, this`up, this`cut
      ensures |flash| == 2 && InSave(f, c, 5)
    {
      var s := flash[cur];
      WriteStep(cur, s.(flag := s.flag & OBSOLETE), f, c, 3);
      Activate(f, c);
    }

    method Activate(ghost f: seq<Sector>, ghost c: Option<Cut>)
      requires |flash| == 2 && cur < 2 && |f| == 2 && InSave(f, c, 4)
      modifies this`flash, this`up, this`cut
      ensures |flash| == 2 && InSave(f, c, 5)
    {
      var s := flash[1 - cur];
      WriteStep(1 - cur, s.(flag := s.flag & ACTIVE), f, c, 4);
    }

    /** `env_relocate_spec` (lines 363-413): repairs the flags and loads the selected copy. */
    method EnvRelocateSpec(ghost k: nat)
      requires |flash| == 2 && cur == 0 && up && gd.addr.Some? && gd.addr.value < 2
      requires (cut == None && k == 2) || cut == Some(Cut(k, None))
      modifies this`flash, this`up, this`cut, this`cur, this`gd, this`env
      ensures cur < 2 && gd.addr == old(gd).addr == Some(cur) && flash == Repair(crc, old(flash), cur, k)
      ensures old(cut).None? ==> up && cut.None?
      ensures up ==> env == flash[cur]
    {
      if gd.addr != Some(cur) {
        cur := 1 - cur;
      }
      var new_ := 1 - cur;
      if flash[new_].flag != OBSOLETE && Ok(crc, flash[new_]) {
        gd := gd.(valid := 2);
        Write(new_, flash[new_].(flag := flash[new_].flag & OBSOLETE));
      }
      if flash[cur].flag != ACTIVE && flash[cur].flag & ACTIVE == ACTIVE {
        gd := gd.(valid := 2);
        Write(cur, flash[cur].(flag := flash[cur].flag & ACTIVE));
      }
      if up {
        env := flash[cur];
      }
    }

    /** What is found at boot, with the default environment as the last resort. */
    ghost function Found(f: seq<Sector>): Bytes
      requires |f| == 2
    {
      match Choice(crc, f)
      case None => defaults
      case Some(d) => d
    }

    /** `env_init` (lines 100-151) and `env_relocate` (uboot/common/env_common.c, lines 203-266) after power-up */
    method Boot(bootCut: Option<nat>)
      requires Valid()
      modifies this
      ensures Valid() && (bootCut.None? ==> up && cut.None? && env.data == Found(old(flash)))
      ensures flash == BootFlash(crc, old(flash), if bootCut.Some? then bootCut.value else 2)
      ensures cur == BootCurrent(crc, old(flash))
    {
      cut := if bootCut.Some? then Some(Cut(bootCut.value, None)) else None;
      up, cur, gd := true, 0, Pick(None, 0);
      gd := EnvInit(crc, flash);
      if gd.valid == 0 {
        env := Sector(crc(defaults), ERASED, defaults);
        gd := gd.(valid := 1);
      } else {
        EnvRelocateSpec(if bootCut.Some? then bootCut.value else 2);
      }
    }

    /** The environment in memory is edited; the editor updates its checksum. */
    method Edit(d: Bytes)
      requires Valid() && |d| == n
      modifies this`env
      ensures Valid() && env.data == d
    {
      env := env.(data := d, crc := crc(d));
    }

    /** Edits and saves until power fails. */
    method PlaySaves(saves: seq<Save>)
      requires Valid() && up && cut.None? && forall k :: 0 <= k < |saves| ==> LegalSave(crc, n, saves[k])
      modifies this
      ensures Valid() && flash == SavesFlash(crc, n, old(flash), old(cur), saves)
    {
      var k := 0;
      while k < |saves| && up
        invariant 0 <= k <= |saves| && Valid() && (up ==> cut.None?)
        invariant SavesFlash(crc, n, old(flash), old(cur), saves) ==
                    if up then SavesFlash(crc, n, flash, cur, saves[k..]) else flash
        decreases |saves| - k
      {
        Edit(saves[k].data);
        cut := saves[k].cut;
        assert saves[k..][0] == saves[k] && saves[k..][1..] == saves[k + 1..];
        SaveEnv();
        k := k + 1;
      }
    }

    /** Any number of sessions (lines 100-256 and 363-413). */
    method Play(sessions: seq<Session>)
      requires Valid() && ErasedFails(crc, n) && forall k :: 0 <= k < |sessions| ==> LegalSession(crc, n, sessions[k])
      modifies this
      ensures Valid() && flash == RunFlash(crc, n, old(flash), sessions)
      ensures Sound(crc, old(flash)) ==> Choice(crc, flash) == LastOfSessions(crc, old(Choice(crc, flash)), sessions)
      ensures AnyCommits(crc, sessions) ==> Choice(crc, flash) == LastOfSessions(crc, None, sessions)
    {
      for k := 0 to |sessions|
        invariant Valid() && RunFlash(crc, n, old(flash), sessions) == RunFlash(crc, n, flash, sessions[k..])
      {
        assert sessions[k..][0] == sessions[k] && sessions[k..][1..] == sessions[k + 1..];
        assert LegalSession(crc, n, sessions[k]);
        Boot(sessions[k].bootCut);
        if sessions[k].bootCut.None? {
          PlaySaves(sessions[k].saves);
        }
      }
      if Sound(crc, old(flash)) { CrashAtomic(crc, n, old(flash), sessions); }
      if AnyCommits(crc, sessions) { CommittedFound(crc, n, old(flash), sessions); }
    }

    /** What was saved last is what a boot loads. */
    method PlayAndBoot(sessions: seq<Session>)
      requires Valid() && ErasedFails(crc, n) && AnyCommits(crc, sessions) &&
               forall k :: 0 <= k < |sessions| ==> LegalSession(crc, n, sessions[k])
      modifies this
      ensures Valid() && up && Some(env.data) == LastOfSessions(crc, None, sessions)
    {
      SomethingSaved(crc, None, sessions);
      Play(sessions);
      Boot(None);
    }
  }

  lemma {:induction false} SomethingSaved(crc: Crc, c: Option<Bytes>, sessions: seq<Session>)
    requires AnyCommits(crc, sessions) || c.Some?
    ensures LastOfSessions(crc, c, sessions).Some?
    decreases |sessions|
  {
    if sessions != [] {
      var s := sessions[0];
      SavedSome(crc, c, s.saves);
      SomethingSaved(crc, if s.bootCut.Some? then c else LastSaved(crc, c, s.saves), sessions[1..]);
    }
  }

  lemma {:induction false} SavedSome(crc: Crc, c: Option<Bytes>, saves: seq<Save>)
    ensures c.Some? || AnySaveCommits(crc, saves) ==> LastSaved(crc, c, saves).Some?
    decreases |saves|
  {
    if saves != [] { SavedSome(crc, if Commits(crc, saves[0]) then Some(saves[0].data) else c, saves[1..]); }
  }
}

/**
 The environment in SPI flash (uboot/common/env_spi.c and uboot/common/env_common.c): saved by
 rewriting a whole sector, checked and loaded at the next boot.
 */
module EnvSpi {
  import opened EnvStore

  const WORD := 0x1_0000_0000

  // ---- the layout of env_t: a checksum word, then the data -------------------------------------------

  predicate IsWord(w: int) { 0 <= w < WORD }

  function WordBytes(w: int): (r: string)
    requires IsWord(w)
    ensures |r| == 4
  {
    [(w % 256) as char, (w / 256 % 256) as char, (w / 65536 % 256) as char, (w / 16777216) as char]
  }

  function WordOf(s: string): int
    requires |s| == 4
  {
    s[0] as int + 256 * s[1] as int + 65536 * s[2] as int + 16777216 * s[3] as int
  }

  lemma WordRoundTrip(w: int)
    requires IsWord(w)
    ensures WordOf(WordBytes(w)) == w
  {
    assert w == w % 256 + 256 * (w / 256);
    assert w / 256 == w / 256 % 256 + 256 * (w / 65536);
    assert w / 65536 == w / 65536 % 256 + 256 * (w / 16777216);
  }

  /** The bytes of the flash with a window replaced. */
  function Splice(f: string, at: nat, s: string): (r: string)
    requires at + |s| <= |f|
    ensures |r| == |f| && r[at..at + |s|] == s && r[..at] == f[..at] && r[at + |s|..] == f[at + |s|..]
  {
    f[..at] + s + f[at + |s|..]
  }

  // ---- a run of setenv calls ---------------------------------------------------------------------------

  datatype Cmd = Cmd(name: Text, values: seq<Text>)

  predicate Proper(c: Cmd) { IsName(c.name) && forall i :: 0 <= i < |c.values| ==> Clean(c.values[i]) }

  function SetAll(es: seq<Entry>, cmds: seq<Cmd>, size: nat): seq<Entry>
  {
    if cmds == [] then es
    else var n := |cmds| - 1; SetVar(SetAll(es, cmds[..n], size), cmds[n].name, cmds[n].values, size).0
  }

  /** The last command is refused on what the commands before it have set. */
  predicate LastRefused(es: seq<Entry>, cmds: seq<Cmd>, size: nat)
    requires cmds != []
  {
    var n := |cmds| - 1;
    Refused(SetAll(es, cmds[..n], size), cmds[n].name, cmds[n].values, size)
  }

  lemma OneMore(es: seq<Entry>, cmds: seq<Cmd>, k: nat, size: nat)
    requires k < |cmds|
    ensures var before, more := SetAll(es, cmds[..k], size), cmds[..k + 1];
      && SetAll(es, more, size) == SetVar(before, cmds[k].name, cmds[k].values, size).0
      && (LastRefused(es, more, size) <==> Refused(before, cmds[k].name, cmds[k].values, size))
  {
    assert cmds[..k + 1][..k] == cmds[..k];
  }

  class Board {
    const crc32: string -> int
    /** ENV_SIZE; CFG_ENV_SIZE is the size of the checksum more. */
    const size: nat
    const sectorSize: nat
    /** Where the environment is in flash. */
    const envAddr: nat
    /** The built-in environment, padded with NULs. */
    const defaults: string

    var flash: string
    var env: Environment
    var envValid: bool

    ghost predicate Configured()
      reads this`flash
    {
      && size >= 2 && |defaults| == size && (forall s :: IsWord(crc32(s)))
      && 0 < size + 4 <= sectorSize && envAddr % sectorSize + size + 4 <= sectorSize
      && envAddr - envAddr % sectorSize + sectorSize <= |flash|
    }

    ghost predicate Valid()
      reads this, env, env.data
    {
      Configured() && env.data.Length == size && env.crc32 == crc32 && IsWord(env.crc)
    }

    constructor (crc32: string -> int, size: nat, sectorSize: nat, envAddr: nat, defaults: string, flash: string)
      requires size >= 2 && |defaults| == size && (forall s :: IsWord(crc32(s)))
      requires 0 < size + 4 <= sectorSize && envAddr % sectorSize + size + 4 <= sectorSize
      requires envAddr - envAddr % sectorSize + sectorSize <= |flash|
      ensures Valid() && fresh(env) && fresh(env.data) && this.flash == flash && this.crc32 == crc32
    {
      this.crc32, this.size, this.sectorSize, this.envAddr, this.defaults, this.flash := crc32, size, sectorSize,
          envAddr, defaults, flash;
      envValid := false;
      var data := new char[size](_ => NUL);
      env := new Environment(data, 0, crc32);
    }

    /** env_t as bytes */
    ghost function EnvBytes(): string
      reads this, env, env.data
      requires Valid()
    {
      WordBytes(env.crc) + env.data[..]
    }

    // raspi_read, raspi_erase and raspi_write

    method Read(at: nat, len: nat) returns (s: string)
      requires at + len <= |flash|
      ensures s == flash[at..at + len]
    {
      s := flash[at..at + len];
    }

    method Erase(at: nat, len: nat)
      requires at + len <= |flash|
      modifies this`flash
      ensures flash == Splice(old(flash), at, seq(len, _ => 0xFF as char))
    {
      flash := Splice(flash, at, seq(len, _ => 0xFF as char));
    }

    method Write(s: string, at: nat)
      requires at + |s| <= |flash| && forall i :: at <= i < at + |s| ==> flash[i] == 0xFF as char
      modifies this`flash
      ensures flash == Splice(old(flash), at, s)
    {
      flash := Splice(flash, at, s);
    }

    /** `saveenv` (uboot/common/env_spi.c, lines 81-130): nothing outside the environment changes. */
    method SaveEnv()
      requires Valid()
      modifies this`flash
      ensures Valid() && flash == Splice(old(flash), envAddr, EnvBytes())
    {
      var bytes := WordBytes(env.crc) + env.data[..];
      if sectorSize > size + 4 {
        ModBelow(envAddr, sectorSize);
        var offset := envAddr % sectorSize;
        RewriteSector(envAddr - offset, offset, bytes);
      } else {
        Rewrite(envAddr, bytes);
      }
    }

    /** Reads a sector, changes part of it and writes it back. */
    method RewriteSector(sector: nat, offset: nat, bytes: string)
      requires sector + sectorSize <= |flash| && offset + |bytes| <= sectorSize
      modifies this`flash
      ensures flash == Splice(old(flash), sector + offset, bytes)
    {
      ghost var f := flash;
      var buffer := Read(sector, sectorSize);
      buffer := Splice(buffer, offset, bytes);
      Rewrite(sector, buffer);
      SectorSplice(f, sector, sectorSize, offset, bytes);
    }

    method Rewrite(at: nat, s: string)
      requires at + |s| <= |flash|
      modifies this`flash
      ensures flash == Splice(old(flash), at, s)
    {
      ghost var f := flash;
      Erase(at, |s|);
      forall i | at <= i < at + |s| ensures flash[i] == 0xFF as char {
        assert flash[at..at + |s|][i - at] == 0xFF as char;
      }
      Write(s, at);
    }

    lemma SectorSplice(f: string, sector: nat, len: nat, offset: nat, s: string)
      requires sector + len <= |f| && offset + |s| <= len
      ensures Splice(f, sector, Splice(f[sector..sector + len], offset, s)) == Splice(f, sector + offset, s)
    {
      var n := offset + |s|;
      var a, b, c, d, e := f[..sector], f[sector..sector + offset], f[sector + offset..sector + n],
          f[sector + n..sector + len], f[sector + len..];
      assert f == a + b + c + d + e by { assert f[..sector + offset] == a + b && f[sector + offset..] == c + (d + e); }
      assert f[sector..sector + len] == b + c + d;
      SpliceFive(a, b, c, d, e, s);
    }

    lemma SpliceFive(a: string, b: string, c: string, d: string, e: string, s: string)
      requires |s| == |c|
      ensures Splice(a + b + c + d + e, |a|, Splice(b + c + d, |b|, s)) == Splice(a + b + c + d + e, |a| + |b|, s)
    {
      SpliceParts(b, c, d, s);
      SpliceParts(a, b + c + d, e, b + s + d);
      SpliceParts(a + b, c, d + e, s);
      Regroup5(a, b, c, d, e);
      Regroup5(a, b, s, d, e);
    }

    lemma SpliceParts(a: string, b: string, c: string, s: string)
      requires |s| == |b|
      ensures Splice(a + b + c, |a|, s) == a + s + c
    {
      var f := a + b + c;
      assert f[..|a|] == a && f[|a| + |s|..] == c;
    }

    lemma Regroup5(a: string, b: string, c: string, d: string, e: string)
      ensures a + (b + c + d) + e == (a + b) + c + (d + e) == a + b + c + d + e
    {
    }

    lemma ModBelow(a: nat, d: nat)
      requires d > 0
      ensures 0 <= a % d <= a
    {
      if a < d { assert a % d == a; }
    }

    /** `spi_env_init` (lines 58-77) and `env_relocate` (uboot/common/env_common.c, lines 203-266) */
    method Boot()
      requires Valid()
      modifies this
      ensures Valid() && fresh(env) && fresh(env.data) && flash == old(flash)
      ensures var w, d := WordOf(flash[envAddr..envAddr + 4]), flash[envAddr + 4..envAddr + 4 + size];
        if crc32(d) == w then env.data[..] == d && env.crc == w else env.data[..] == defaults && env.CrcCurrent()
    {
      var image := Read(envAddr, size + 4);
      envValid := crc32(image[4..]) == WordOf(image[..4]);
      assert image[..4] == flash[envAddr..envAddr + 4] && image[4..] == flash[envAddr + 4..envAddr + 4 + size];
      var data := new char[size];
      if !envValid {
        forall i | 0 <= i < size { data[i] := defaults[i]; }
        env := new Environment(data, crc32(defaults), crc32);
        assert data[..] == defaults;
        envValid := true;
      } else {
        image := Read(envAddr, size + 4);
        forall i | 0 <= i < size { data[i] := image[4 + i]; }
        assert data[..] == image[4..];
        env := new Environment(data, WordOf(image[..4]), crc32);
      }
    }

    /** A saved environment whose checksum is current comes back at the next boot. */
    method SaveAndBoot(ghost es: seq<Entry>)
      requires Valid() && env.Holds(es) && env.CrcCurrent()
      modifies this
      ensures Valid() && fresh(env) && fresh(env.data) && env.Holds(es) && env.CrcCurrent()
      ensures |flash| == |old(flash)| && flash[..envAddr] == old(flash)[..envAddr] &&
              flash[envAddr + size + 4..] == old(flash)[envAddr + size + 4..]
    {
      ghost var w, d := env.crc, env.data[..];
      SaveEnv();
      WordRoundTrip(w);
      assert flash[envAddr..envAddr + 4 + size] == WordBytes(w) + d;
      assert flash[envAddr..envAddr + 4] == (WordBytes(w) + d)[..4] == WordBytes(w);
      assert flash[envAddr + 4..envAddr + 4 + size] == (WordBytes(w) + d)[4..] == d;
      Boot();
    }

    /** Any run of setenv calls. */
    method SetMany(cmds: seq<Cmd>, ghost es: seq<Entry>) returns (rc: int)
      requires Valid() && env.Holds(es) && forall k :: 0 <= k < |cmds| ==> Proper(cmds[k])
      modifies env, env.data
      ensures Valid() && env.Holds(SetAll(es, cmds, size)) && (cmds != [] && rc == 0 ==> env.CrcCurrent())
      ensures rc == if cmds != [] && LastRefused(es, cmds, size) then 1 else 0
    {
      rc := 0;
      for k := 0 to |cmds|
        invariant Valid() && env.Holds(SetAll(es, cmds[..k], size)) && (k > 0 && rc == 0 ==> env.CrcCurrent())
        invariant rc == if k > 0 && LastRefused(es, cmds[..k], size) then 1 else 0
      {
        OneMore(es, cmds, k, size);
        rc := env.SetEnv(cmds[k].name, cmds[k].values, SetAll(es, cmds[..k], size));
      }
      assert cmds[..|cmds|] == cmds;
    }

    /** Any run of setenv calls whose last one succeeds survives saving and a reboot, variable by variable. */
    method SetSaveBoot(cmds: seq<Cmd>, ghost es: seq<Entry>) returns (rc: int)
      requires Valid() && env.Holds(es) && cmds != [] && forall k :: 0 <= k < |cmds| ==> Proper(cmds[k])
      modifies this, env, env.data
      ensures Valid() && env.Holds(SetAll(es, cmds, size)) && (rc == 0 ==> env.CrcCurrent() && fresh(env))
      ensures rc == if LastRefused(es, cmds, size) then 1 else 0
      ensures |flash| == |old(flash)| && flash[..envAddr] == old(flash)[..envAddr] &&
              flash[envAddr + size + 4..] == old(flash)[envAddr + size + 4..]
    {
      rc := SetMany(cmds, es);
      if rc == 0 {
        SaveAndBoot(SetAll(es, cmds, size));
      }
    }
  }
}

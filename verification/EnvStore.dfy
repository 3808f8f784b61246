/**
 The environment in memory (uboot/common/cmd_nvedit.c): a packed buffer of NUL-terminated
 "name=value" strings that behaves as an ordered map.
 */
module EnvStore {

  /** A C string without its terminator: no character is NUL. */
  type Text = string

  const NUL := '\0'
  const EQ := '='
  const BLANK := ' '

  datatype Option<T> = None | Some(value: T)

  datatype Entry = Entry(name: Text, value: Text)

  predicate Clean(s: Text) { forall i :: 0 <= i < |s| ==> s[i] != NUL }

  predicate IsName(s: Text) { forall i :: 0 <= i < |s| ==> s[i] != NUL && s[i] != EQ }

  predicate IsEntry(e: Entry) { IsName(e.name) && Clean(e.value) }

  function Line(e: Entry): Text { e.name + [EQ] + e.value }

  predicate Entries(es: seq<Entry>) { forall i :: 0 <= i < |es| ==> IsEntry(es[i]) }

  /** The strings one after another. */
  function Packed(es: seq<Entry>): string
  {
    if es == [] then [] else Line(es[0]) + [NUL] + Packed(es[1..])
  }

  /** The whole environment ends with a double NUL, also when it is empty. */
  function Image(es: seq<Entry>): string
  {
    if es == [] then [NUL, NUL] else Packed(es) + [NUL]
  }

  /** The buffer begins with the image of the entries. */
  predicate Shows(s: string, es: seq<Entry>) { |Image(es)| <= |s| && s[..|Image(es)|] == Image(es) }

  // ---- the ordered map ---------------------------------------------------------------------------

  predicate Unique(es: seq<Entry>) { forall i, j :: 0 <= i < j < |es| ==> es[i].name != es[j].name }

  function Lookup(es: seq<Entry>, name: Text): Option<Text>
  {
    if es == [] then None else if es[0].name == name then Some(es[0].value) else Lookup(es[1..], name)
  }

  function Remove(es: seq<Entry>, name: Text): (r: seq<Entry>)
    ensures |r| <= |es|
  {
    if es == [] then [] else if es[0].name == name then Remove(es[1..], name) else [es[0]] + Remove(es[1..], name)
  }

  function Join(values: seq<Text>): Text
  {
    if values == [] then [] else if |values| == 1 then values[0] else values[0] + [BLANK] + Join(values[1..])
  }

  /** The lengths of strings, each with a separator */
  function Lengths(values: seq<Text>): nat
  {
    if values == [] then 0 else |values[0]| + 1 + Lengths(values[1..])
  }

  lemma {:induction false} JoinLength(values: seq<Text>)
    requires values != []
    ensures Lengths(values) == |Join(values)| + 1
  {
    if |values| > 1 { JoinLength(values[1..]); }
  }

  /** Value i is in the joined string behind the earlier ones, and a blank is before it unless it is the first. */
  lemma {:induction false} JoinParts(values: seq<Text>, i: nat)
    requires i < |values|
    ensures Lengths(values[..i]) + |values[i]| <= |Join(values)|
    ensures Join(values)[Lengths(values[..i])..][..|values[i]|] == values[i]
    ensures i > 0 ==> Lengths(values[..i]) > 0 && Join(values)[Lengths(values[..i]) - 1] == ' '
  {
    if i > 0 {
      var rest := values[1..];
      JoinParts(rest, i - 1);
      assert rest[..i - 1] == values[..i][1..];
      JoinShift(values[0], Join(rest), Lengths(rest[..i - 1]), |values[i]|);
    }
  }

  lemma JoinShift(v: Text, t: Text, at: nat, n: nat)
    requires at + n <= |t|
    ensures (v + [BLANK] + t)[|v| + 1 + at..][..n] == t[at..][..n]
    ensures at > 0 ==> (v + [BLANK] + t)[|v| + at] == t[at - 1]
    ensures (v + [BLANK] + t)[|v|] == ' '
  {
  }

  /** These can be set only once. */
  predicate SetOnce(name: Text) { name == "serial#" || name == "ethaddr" }

  /** Sets a variable, or deletes it when there is no value. When the result does not fit, the variable
      ends up deleted. */
  function SetVar(es: seq<Entry>, name: Text, values: seq<Text>, size: nat): (seq<Entry>, int)
  {
    var rest := Remove(es, name);
    if SetOnce(name) && Lookup(es, name).Some? then (es, 1)
    else if values == [] then (rest, 0)
    else
      var new_ := rest + [Entry(name, Join(values))];
      if |Image(new_)| <= size then (new_, 0) else (rest, 1)
  }

  /** How long the entries with other names are in the buffer, with '=' and NUL */
  function LengthOfOthers(es: seq<Entry>, name: Text): nat
  {
    if es == [] then 0
    else LengthOfOthers(es[1..], name) + if es[0].name == name then 0 else |es[0].name| + |es[0].value| + 2
  }

  /** When setting a variable is refused: it is there and can be set only once, or there is no room for name and
      values with their separators beside the other variables, and for the NUL at the end. */
  predicate Refused(es: seq<Entry>, name: Text, values: seq<Text>, size: nat)
  {
    || ((name == "serial#" || name == "ethaddr") && Lookup(es, name).Some?)
    || (values != [] && LengthOfOthers(es, name) + |name| + 1 + Lengths(values) + 1 > size)
  }

  lemma {:induction false} OthersPacked(es: seq<Entry>, name: Text)
    ensures |Packed(Remove(es, name))| == LengthOfOthers(es, name)
  {
    if es != [] {
      OthersPacked(es[1..], name);
      if es[0].name != name { assert Remove(es, name)[1..] == Remove(es[1..], name); }
    }
  }

  lemma {:induction false} RemoveAll(es: seq<Entry>, name: Text, i: nat)
    requires i < |es| && es[i].name == name && Unique(es)
    ensures Remove(es, name) == es[..i] + es[i + 1..]
  {
    if i == 0 {
      forall j | 0 <= j < |es[1..]| ensures es[1..][j].name != name { assert es[1..][j] == es[j + 1]; }
      RemoveNone(es[1..], name);
      assert es[..0] + es[1..] == es[1..];
    } else {
      assert es[0].name != es[i].name;
      UniqueRest(es);
      RemoveAll(es[1..], name, i - 1);
      OmitLater(es, i);
    }
  }

  lemma OmitLater(es: seq<Entry>, i: nat)
    requires 0 < i < |es|
    ensures es[..i] + es[i + 1..] == [es[0]] + (es[1..][..i - 1] + es[1..][i..])
  {
    assert es[..i] == [es[0]] + es[1..][..i - 1];
    assert es[i + 1..] == es[1..][i..];
  }

  lemma UniqueRest(es: seq<Entry>)
    requires Unique(es) && es != []
    ensures Unique(es[1..])
  {
    forall i, j | 0 <= i < j < |es[1..]| ensures es[1..][i].name != es[1..][j].name {
      assert es[1..][i] == es[i + 1] && es[1..][j] == es[j + 1];
    }
  }

  lemma {:induction false} RemoveNone(es: seq<Entry>, name: Text)
    requires forall j :: 0 <= j < |es| ==> es[j].name != name
    ensures Remove(es, name) == es
  {
    if es != [] { RemoveNone(es[1..], name); }
  }

  /** Removing forgets the name and nothing else, and keeps names unique and entries well-formed. */
  lemma {:induction false} RemoveFacts(es: seq<Entry>, name: Text, other: Text)
    requires Unique(es) && Entries(es)
    ensures Lookup(Remove(es, name), other) == if other == name then None else Lookup(es, other)
    ensures Unique(Remove(es, name)) && Entries(Remove(es, name))
    ensures forall j :: 0 <= j < |Remove(es, name)| ==> Remove(es, name)[j].name != name && Remove(es, name)[j] in es
  {
    if es != [] {
      UniqueRest(es);
      RemoveFacts(es[1..], name, other);
      var r := Remove(es[1..], name);
      forall j | 0 <= j < |r| ensures r[j].name != es[0].name {
        var k :| 0 <= k < |es[1..]| && es[1..][k] == r[j];
        assert es[k + 1] == r[j];
      }
    }
  }

  lemma {:induction false} LookupAppend(es: seq<Entry>, e: Entry, name: Text)
    requires forall j :: 0 <= j < |es| ==> es[j].name != e.name
    ensures Lookup(es + [e], name) == if name == e.name then Some(e.value) else Lookup(es, name)
  {
    if es != [] {
      assert (es + [e])[1..] == es[1..] + [e];
      LookupAppend(es[1..], e, name);
    }
  }

  lemma {:induction false} JoinClean(values: seq<Text>)
    requires forall i :: 0 <= i < |values| ==> Clean(values[i])
    ensures Clean(Join(values))
  {
    if |values| > 1 { JoinClean(values[1..]); }
  }

  /** What a caller of setenv may rely on: the variable has the joined value or is gone, every other
      variable is as before, the environment stays well-formed, and the code is 1 exactly when Refused holds. */
  lemma SetVarMeaning(es: seq<Entry>, name: Text, values: seq<Text>, size: nat, other: Text)
    requires Unique(es) && Entries(es) && IsName(name) && forall i :: 0 <= i < |values| ==> Clean(values[i])
    ensures var (r, rc) := SetVar(es, name, values, size);
      && Unique(r) && Entries(r)
      && Lookup(r, other) ==
           (if other != name || (SetOnce(name) && Lookup(es, name).Some?) then Lookup(es, other)
            else if values == [] || rc != 0 then None else Some(Join(values)))
      && rc == if Refused(es, name, values, size) then 1 else 0
  {
    RemoveFacts(es, name, other);
    JoinClean(values);
    var rest := Remove(es, name);
    LookupAppend(rest, Entry(name, Join(values)), other);
    OthersPacked(es, name);
    ImageMore(rest, Entry(name, Join(values)));
    if values != [] { JoinLength(values); }
  }

  // ---- the image -----------------------------------------------------------------------------------

  lemma {:induction false} PackedConcat(a: seq<Entry>, b: seq<Entry>)
    ensures Packed(a + b) == Packed(a) + Packed(b)
  {
    if a == [] {
      assert a + b == b;
    } else {
      assert (a + b)[1..] == a[1..] + b;
      PackedConcat(a[1..], b);
    }
  }

  /** Where the i-th string begins. */
  function Offset(es: seq<Entry>, i: nat): nat
    requires i <= |es|
  {
    |Packed(es[..i])|
  }

  lemma PackedOne(es: seq<Entry>, i: nat)
    requires i < |es|
    ensures Packed(es[..i + 1]) == Packed(es[..i]) + (Line(es[i]) + [NUL])
  {
    assert es[..i + 1] == es[..i] + [es[i]];
    PackedConcat(es[..i], [es[i]]);
    assert Packed([es[i]]) == Line(es[i]) + [NUL] + Packed([]);
  }

  lemma PackedAround(es: seq<Entry>, i: nat)
    requires i <= |es|
    ensures Packed(es) == Packed(es[..i]) + Packed(es[i..])
  {
    assert es == es[..i] + es[i..];
    PackedConcat(es[..i], es[i..]);
  }

  lemma MiddleAt(p: string, l: string, q: string, j: nat)
    requires j < |l|
    ensures (p + l + q)[|p| + j] == l[j]
  {
  }

  lemma PackedIn(es: seq<Entry>, i: nat, j: nat)
    requires i < |es| && j <= |Line(es[i])|
    ensures Offset(es, i + 1) == Offset(es, i) + |Line(es[i])| + 1 <= |Packed(es)|
    ensures Packed(es)[Offset(es, i) + j] == (Line(es[i]) + [NUL])[j]
  {
    PackedOne(es, i);
    PackedAround(es, i + 1);
    MiddleAt(Packed(es[..i]), Line(es[i]) + [NUL], Packed(es[i + 1..]), j);
  }

  lemma EntryChar(s: string, es: seq<Entry>, i: nat, j: nat)
    requires Shows(s, es) && i < |es| && j <= |Line(es[i])|
    ensures Offset(es, i + 1) == Offset(es, i) + |Line(es[i])| + 1 < |Image(es)|
    ensures s[Offset(es, i) + j] == if j < |Line(es[i])| then Line(es[i])[j] else NUL
  {
    PackedIn(es, i, j);
    var at := Offset(es, i) + j;
    assert s[at] == s[..|Image(es)|][at] == Image(es)[at] == Packed(es)[at];
  }

  /** The i-th string is in the buffer where it should be, and a NUL follows it. */
  lemma EntryAt(s: string, es: seq<Entry>, i: nat)
    requires Shows(s, es) && i < |es|
    ensures Offset(es, i + 1) == Offset(es, i) + |Line(es[i])| + 1 < |Image(es)|
    ensures HasString(s, Offset(es, i), Line(es[i]))
  {
    var at, l := Offset(es, i), Line(es[i]);
    EntryChar(s, es, i, |l|);
    forall j | 0 <= j < |l| ensures s[at + j] == l[j] { EntryChar(s, es, i, j); }
  }

  /** The NUL-terminated string t is at a position of the buffer. */
  predicate HasString(s: string, at: nat, t: Text)
  {
    at + |t| < |s| && s[at + |t|] == NUL && forall j {:trigger t[j]} :: 0 <= j < |t| ==> s[at + j] == t[j]
  }

  lemma ImageEnd(s: string, es: seq<Entry>)
    requires Shows(s, es)
    ensures Offset(es, |es|) < |s| && s[Offset(es, |es|)] == NUL
  {
    assert es[..|es|] == es;
  }

  lemma LineClean(e: Entry)
    requires IsEntry(e)
    ensures Clean(Line(e)) && |Line(e)| > |e.name|
  {
  }

  /** A double NUL is found only at the end. */
  lemma {:induction false} DoubleNul(es: seq<Entry>, j: nat)
    requires Entries(es) && j < |Packed(es)|
    ensures (Packed(es) + [NUL])[j] == NUL && (Packed(es) + [NUL])[j + 1] == NUL <==> j == |Packed(es)| - 1
  {
    LineClean(es[0]);
    var l, t := Line(es[0]) + [NUL], Packed(es[1..]);
    assert Packed(es) == l + t;
    if j >= |l| {
      DoubleNul(es[1..], j - |l|);
      assert Packed(es) + [NUL] == l + (t + [NUL]);
    } else if j == |l| - 1 && es[1..] != [] {
      LineClean(es[1]);
      assert t == Line(es[1]) + [NUL] + Packed(es[1..][1..]);
      assert (Packed(es) + [NUL])[j + 1] == Line(es[1])[0];
    }
  }

  // ---- lookups by position, deletion and appending in the image --------------------------------------------

  lemma {:induction false} LookupFirst(es: seq<Entry>, name: Text, k: nat)
    requires k <= |es| && forall j :: 0 <= j < k ==> es[j].name != name
    ensures k < |es| && es[k].name == name ==> Lookup(es, name) == Some(es[k].value)
    ensures k == |es| ==> Lookup(es, name) == None
  {
    if k > 0 { LookupFirst(es[1..], name, k - 1); }
  }

  lemma ValueAt(s: string, at: nat, e: Entry)
    requires HasString(s, at, Line(e))
    ensures HasString(s, at + |e.name| + 1, e.value)
  {
    var n := |e.name| + 1;
    forall j | 0 <= j < |e.value| ensures s[at + n + j] == e.value[j] {
      assert Line(e)[n + j] == e.value[j];
      assert s[at + (n + j)] == Line(e)[n + j];
    }
  }

  /** The character where the i-th string would begin is NUL exactly behind the last one. */
  lemma StringStarts(s: string, es: seq<Entry>, i: nat)
    requires Shows(s, es) && Entries(es) && i <= |es|
    ensures Offset(es, i) < |s| && (s[Offset(es, i)] == NUL <==> i == |es|) && (Offset(es, i) == 0 <==> i == 0)
  {
    if i < |es| {
      EntryAt(s, es, i);
      LineClean(es[i]);
      assert s[Offset(es, i) + 0] == Line(es[i])[0];
    } else {
      ImageEnd(s, es);
    }
    if i > 0 { PackedOne(es, i - 1); }
  }

  lemma PrefixShown(s: string, es: seq<Entry>, i: nat)
    requires Shows(s, es) && i <= |es|
    ensures Offset(es, i) <= |Packed(es)| < |Image(es)| <= |s| && s[..Offset(es, i)] == Packed(es[..i])
    ensures es != [] ==> s[Offset(es, i)..|Image(es)|] == Packed(es[i..]) + [NUL]
  {
    PackedAround(es, i);
    var p, q, n := Packed(es[..i]), Packed(es[i..]), |Image(es)|;
    assert s[..|p|] == s[..n][..|p|];
    if es != [] {
      assert Image(es) == p + (q + [NUL]);
      assert s[|p|..n] == s[..n][|p|..];
    }
  }

  /** The entries without the i-th one. */
  function Without(es: seq<Entry>, i: nat): seq<Entry>
    requires i < |es|
  {
    es[..i] + es[i + 1..]
  }

  lemma ImageWithout(es: seq<Entry>, i: nat)
    requires i < |es| && |es| > 1
    ensures Image(Without(es, i)) == Packed(es[..i]) + (Packed(es[i + 1..]) + [NUL])
  {
    PackedConcat(es[..i], es[i + 1..]);
  }

  lemma DeletedLast(s: string, s': string, es: seq<Entry>)
    requires Shows(s, es) && Entries(es) && |es| > 1 && |s'| == |s|
    requires var at := Offset(es, |es| - 1); at < |s| && s' == s[at := NUL]
    ensures Shows(s', Without(es, |es| - 1))
  {
    var i := |es| - 1;
    PrefixShown(s, es, i);
    ImageWithout(es, i);
    assert es[i + 1..] == [] && Packed(es[i + 1..]) == [];
    var at := Offset(es, i);
    assert s'[..at + 1] == s[..at] + [NUL];
  }

  predicate DoubleAt(t: string, j: int)
    requires 0 <= j < |t| - 1
  {
    t[j] == NUL && t[j + 1] == NUL
  }

  /** The only double NUL is at the end. */
  predicate DoubleAtEnd(t: string)
  {
    |t| >= 2 && forall j {:trigger DoubleAt(t, j)} :: 0 <= j < |t| - 1 ==> (DoubleAt(t, j) <==> j == |t| - 2)
  }

  lemma EndsOnce(es: seq<Entry>)
    requires es != [] && Entries(es)
    ensures DoubleAtEnd(Packed(es) + [NUL])
  {
    var t := Packed(es) + [NUL];
    forall j | 0 <= j < |t| - 1 ensures DoubleAt(t, j) <==> j == |t| - 2 { DoubleNul(es, j); }
  }

  lemma Shown(s: string, es: seq<Entry>, p: string)
    requires |p| <= |s| && s[..|p|] == p && p == Image(es)
    ensures Shows(s, es)
  {
  }

  lemma {:induction false} JoinMore(values: seq<Text>, v: Text)
    ensures Join(values + [v]) == if values == [] then v else Join(values) + [BLANK] + v
  {
    if values != [] {
      assert (values + [v])[1..] == values[1..] + [v];
      JoinMore(values[1..], v);
    }
  }

  lemma ImageMore(es: seq<Entry>, e: Entry)
    ensures Image(es + [e]) == Packed(es) + Line(e) + [NUL, NUL]
  {
    PackedConcat(es, [e]);
    assert Packed([e]) == Line(e) + [NUL] + Packed([]);
    TwoNuls(Packed(es), Line(e));
  }

  lemma TwoNuls(p: string, l: string)
    ensures p + (l + [NUL] + []) + [NUL] == p + l + [NUL, NUL]
  {
  }

  /** What is in the buffer while an entry is being written. */
  function Partial(name: Text, values: seq<Text>): Text { if values == [] then name else name + [EQ] + Join(values) }

  // ---- the code -------------------------------------------------------------------------------------------

  /** The character at a position of a C string, its terminator included. */
  function At(s: Text, k: nat): char
    requires k <= |s|
  {
    if k < |s| then s[k] else NUL
  }

  class Environment {
    /** `env_ptr->data`, ENV_SIZE characters, and `env_ptr->crc` */
    const data: array<char>
    var crc: int
    const crc32: string -> int

    constructor (data: array<char>, crc: int, crc32: string -> int)
      ensures this.data == data && this.crc == crc && this.crc32 == crc32
    {
      this.data, this.crc, this.crc32 := data, crc, crc32;
    }

    /** The entries that the buffer holds. */
    ghost predicate Holds(es: seq<Entry>)
      reads this, data
    {
      data.Length >= 2 && Shows(data[..], es) && Entries(es) && Unique(es)
    }

    ghost predicate CrcCurrent()
      reads this, data
    {
      crc == crc32(data[..])
    }

    /** `envmatch` (lines 603-613): the index of the value if the entry at i2 has this name, else -1 */
    method EnvMatch(name: Text, at: nat, ghost e: Entry) returns (r: int)
      requires IsName(name) && IsEntry(e) && HasString(data[..], at, Line(e))
      ensures r == if e.name == name then at + |name| + 1 else -1
    {
      var k, i2 := 0, at;
      ghost var l := Line(e);
      LineClean(e);
      while true
        invariant 0 <= k <= |name| && k <= |e.name| && i2 == at + k && name[..k] == e.name[..k]
        decreases |name| - k
      {
        assert data[..][at + k] == l[k];
        i2 := i2 + 1;
        if At(name, k) != data[i2 - 1] {
          break;
        }
        if At(name, k) == EQ {
          return i2;
        }
        k := k + 1;
      }
      assert data[i2 - 1] == l[k];
      if At(name, k) == NUL && data[i2 - 1] == EQ {
        return i2;
      }
      return -1;
    }

    /** The end of the string at a position. */
    method EndOf(at: nat, ghost t: Text) returns (nxt: nat)
      requires HasString(data[..], at, t) && Clean(t)
      ensures nxt == at + |t|
    {
      nxt := at;
      while data[nxt] != NUL
        invariant at <= nxt <= at + |t| && (nxt < at + |t| ==> data[nxt] == t[nxt - at])
        decreases at + |t| - nxt
      {
        nxt := nxt + 1;
        if nxt < at + |t| { assert data[..][at + (nxt - at)] == t[nxt - at]; }
      }
    }

    /** `getenv` (lines 532-552): the index of the value, -1 if there is none. The scan never leaves the buffer. */
    method GetEnv(name: Text, ghost es: seq<Entry>) returns (r: int)
      requires Holds(es) && IsName(name)
      ensures match Lookup(es, name) case None => r == -1 case Some(v) => r >= 0 && HasString(data[..], r, v)
    {
      var i, nxt := 0, 0;
      ghost var k := 0;
      StringStarts(data[..], es, 0);
      while data[i] != NUL
        invariant 0 <= k <= |es| && i == Offset(es, k) < data.Length && (data[i] == NUL <==> k == |es|)
        invariant forall j :: 0 <= j < k ==> es[j].name != name
        decreases |es| - k
      {
        EntryAt(data[..], es, k);
        LineClean(es[k]);
        nxt := EndOf(i, Line(es[k]));
        var val := EnvMatch(name, i, es[k]);
        LookupFirst(es, name, k);
        if val >= 0 {
          ValueAt(data[..], i, es[k]);
          return val;
        }
        i := nxt + 1;
        k := k + 1;
        StringStarts(data[..], es, k);
      }
      LookupFirst(es, name, k);
      return -1;
    }

    /** The search of `_do_setenv` (lines 177-183) */
    method FindVar(name: Text, ghost es: seq<Entry>) returns (found: bool, env: nat, nxt: nat, ghost i: nat)
      requires Holds(es) && IsName(name)
      ensures found == Lookup(es, name).Some?
      ensures !found ==> forall j :: 0 <= j < |es| ==> es[j].name != name
      ensures found ==> i < |es| && es[i].name == name && env == Offset(es, i) && nxt + 1 == Offset(es, i + 1)
    {
      env, nxt, i := 0, 0, 0;
      StringStarts(data[..], es, 0);
      while data[env] != NUL
        invariant 0 <= i <= |es| && env == Offset(es, i) < data.Length && (data[env] == NUL <==> i == |es|)
        invariant forall j :: 0 <= j < i ==> es[j].name != name
        decreases |es| - i
      {
        EntryAt(data[..], es, i);
        LineClean(es[i]);
        nxt := EndOf(env, Line(es[i]));
        var oldval := EnvMatch(name, env, es[i]);
        LookupFirst(es, name, i);
        if oldval >= 0 {
          return true, env, nxt, i;
        }
        env := nxt + 1;
        i := i + 1;
        StringStarts(data[..], es, i);
      }
      LookupFirst(es, name, i);
      found := false;
    }

    /** "Delete any existing definition" (lines 267-281) */
    method DeleteAt(env0: nat, nxt0: nat, ghost es: seq<Entry>, ghost i: nat)
      requires Holds(es) && i < |es| && env0 == Offset(es, i) && nxt0 + 1 == Offset(es, i + 1)
      modifies data
      ensures Shows(data[..], Without(es, i))
    {
      ghost var s := data[..];
      var env, nxt := env0, nxt0 + 1;
      StringStarts(s, es, i);
      StringStarts(s, es, i + 1);
      if data[nxt] == NUL {
        if env > 0 {
          env := env - 1;
        } else {
          data[env] := NUL;
        }
        env := env + 1;
        data[env] := NUL;
        if |es| > 1 {
          DeletedLast(s, data[..], es);
        } else {
          assert Without(es, i) == [] && data[..2] == [NUL, NUL];
        }
      } else {
        ShiftDown(env, nxt, es, i);
      }
    }

    /** Moves the strings behind the deleted one to the front (lines 274-281). */
    method ShiftDown(env0: nat, nxt0: nat, ghost es: seq<Entry>, ghost i: nat)
      requires Holds(es) && i + 1 < |es| && env0 == Offset(es, i) && nxt0 == Offset(es, i + 1)
      modifies data
      ensures Shows(data[..], Without(es, i))
    {
      ghost var s, t := data[..], Packed(es[i + 1..]) + [NUL];
      PrefixShown(s, es, i);
      PrefixShown(s, es, i + 1);
      PackedOne(es, i);
      EndsOnce(es[i + 1..]);
      assert data[nxt0..nxt0 + |t|] == s[nxt0..|Image(es)|];
      MoveDown(env0, nxt0, t);
      ImageWithout(es, i);
      assert data[..env0 + |t|] == data[..][..env0 + |t|];
      Shown(data[..], Without(es, i), s[..env0] + t);
    }

    /** Copies the characters t, which end in the first double NUL, to the front. */
    method MoveDown(env0: nat, nxt0: nat, ghost t: string)
      requires env0 < nxt0 && nxt0 + |t| <= data.Length && data[nxt0..nxt0 + |t|] == t && DoubleAtEnd(t)
      modifies data
      ensures data[..env0 + |t|] == old(data[..env0]) + t
    {
      var env, nxt := env0, nxt0;
      ghost var k, s := 0, data[..];
      while true
        invariant 0 <= k < |t| - 1 && env == env0 + k && nxt == nxt0 + k
        invariant forall j :: 0 <= j < env0 ==> data[j] == s[j]
        invariant forall j :: env0 <= j < env ==> data[j] == t[j - env0]
        invariant forall j :: nxt <= j < nxt0 + |t| ==> data[j] == t[j - nxt0]
        decreases |t| - k
      {
        assert DoubleAt(t, k) <==> k == |t| - 2;
        data[env] := data[nxt];
        nxt := nxt + 1;
        if data[env] == NUL && data[nxt] == NUL {
          break;
        }
        env := env + 1;
        k := k + 1;
      }
      env := env + 1;
      data[env] := NUL;
    }

    /** The place for a new string (lines 305-308) */
    method FindEnd(ghost es: seq<Entry>) returns (env: nat)
      requires data.Length >= 2 && Shows(data[..], es) && Entries(es)
      ensures env == |Packed(es)|
    {
      env := 0;
      ghost var t := Image(es);
      if es != [] { EndsOnce(es); }
      assert forall j :: 0 <= j < |t| ==> data[j] == data[..][..|t|][j] == t[j];
      while data[env] != NUL || data[env + 1] != NUL
        invariant 0 <= env <= |t| - 2
        decreases |t| - env
      {
        assert es != [];
        assert DoubleAt(t, env) <==> env == |t| - 2;
        env := env + 1;
      }
      if es != [] {
        assert DoubleAt(t, env) <==> env == |t| - 2;
        LineClean(es[0]);
        assert |Packed(es)| >= 2;
      }
      if env > 0 {
        env := env + 1;
      }
    }

    /** The room that an entry needs (lines 313-317) */
    method Needed(name: Text, values: seq<Text>) returns (len: nat)
      requires values != []
      ensures len == |Line(Entry(name, Join(values)))| + 2
    {
      len := |name| + 2;
      for i := 0 to |values|
        invariant len + Lengths(values[i..]) == |name| + 2 + Lengths(values)
      {
        assert values[i..][1..] == values[i + 1..];
        len := len + |values[i]| + 1;
      }
      JoinLength(values);
    }

    /** Copies a string and its NUL. */
    method CopyString(at: nat, t: Text) returns (env: nat)
      requires at + |t| < data.Length && Clean(t)
      modifies data
      ensures env == at + |t| && data[..env] == old(data[..at]) + t && data[env] == NUL
    {
      env := at;
      ghost var s := data[..];
      var k := 0;
      while true
        invariant 0 <= k <= |t| && env == at + k
        invariant forall j :: 0 <= j < at ==> data[j] == s[j]
        invariant forall j :: at <= j < env ==> data[j] == t[j - at]
        decreases |t| - k
      {
        data[env] := At(t, k);
        if data[env] == NUL {
          break;
        }
        k := k + 1;
        env := env + 1;
      }
    }

    /** Writes one more value of an entry, after '=' or a blank. */
    method WriteValue(at: nat, first: bool, v: Text, ghost s: string) returns (env: nat)
      requires at + |v| + 1 < data.Length && Clean(v) && data[..at] == s
      modifies data
      ensures env == at + 1 + |v| && data[..env] == s + [if first then EQ else BLANK] + v && data[env] == NUL
    {
      data[at] := if first then EQ else BLANK;
      assert data[..at + 1] == s + [if first then EQ else BLANK];
      env := CopyString(at + 1, v);
    }

    lemma Regroup(p: string, a: string, c: string, v: string)
      ensures p + a + c + v == p + (a + c + v)
    {
    }

    lemma PartialMore(p: string, name: Text, values: seq<Text>, i: nat)
      requires i < |values|
      ensures p + Partial(name, values[..i]) + [if i == 0 then EQ else BLANK] + values[i] ==
                p + Partial(name, values[..i + 1])
      ensures Lengths(values[i..]) == |values[i]| + 1 + Lengths(values[i + 1..])
    {
      assert values[..i + 1] == values[..i] + [values[i]] && values[i..][1..] == values[i + 1..];
      JoinMore(values[..i], values[i]);
      var a, c := Partial(name, values[..i]), [if i == 0 then EQ else BLANK];
      if i > 0 { Regroup(name + [EQ], Join(values[..i]), c, values[i]); }
      Regroup(p, a, c, values[i]);
    }

    /** Writes name and values at the end and closes the list (lines 322-333). */
    method WriteEntry(at: nat, name: Text, values: seq<Text>)
      requires values != [] && IsName(name) && (forall i :: 0 <= i < |values| ==> Clean(values[i]))
      requires at + |name| + 1 + |Join(values)| + 2 <= data.Length
      modifies data
      ensures data[..at + |name| + 1 + |Join(values)| + 2] ==
                old(data[..at]) + Line(Entry(name, Join(values))) + [NUL, NUL]
    {
      ghost var s := data[..at];
      JoinLength(values);
      var env := CopyString(at, name);
      env := WriteValues(at, env, name, values, s);
      CloseList(env, s + Line(Entry(name, Join(values))));
    }

    /** "end is marked with double NUL" (lines 332-333) */
    method CloseList(env: nat, ghost s: string)
      requires env + 1 < data.Length && data[..env] == s && data[env] == NUL
      modifies data
      ensures data[..env + 2] == s + [NUL, NUL]
    {
      data[env + 1] := NUL;
      assert data[..env + 2] == data[..env] + [data[env], data[env + 1]];
    }

    method WriteValues(at: nat, env0: nat, name: Text, values: seq<Text>, ghost s: string) returns (env: nat)
      requires values != [] && (forall i :: 0 <= i < |values| ==> Clean(values[i])) && |s| == at
      requires env0 == at + |name| && env0 + Lengths(values) < data.Length && data[..env0] == s + name &&
               data[env0] == NUL
      modifies data
      ensures env == env0 + Lengths(values) && data[..env] == s + Line(Entry(name, Join(values))) && data[env] == NUL
    {
      env := env0;
      for i := 0 to |values|
        invariant env0 <= env && env + Lengths(values[i..]) == env0 + Lengths(values)
        invariant data[..env] == s + Partial(name, values[..i]) && data[env] == NUL
      {
        PartialMore(s, name, values, i);
        env := WriteValue(env, i == 0, values[i], s + Partial(name, values[..i]));
      }
      assert values[..|values|] == values;
    }

    /** `env_crc_update` (uboot/common/env_common.c, lines 143-147) */
    method EnvCrcUpdate()
      modifies this`crc
      ensures CrcCurrent()
    {
      crc := crc32(data[..]);
    }

    /** `_do_setenv` (lines 157-336) */
    method SetEnv(name: Text, values: seq<Text>, ghost es: seq<Entry>) returns (rc: int)
      requires Holds(es) && IsName(name) && forall i :: 0 <= i < |values| ==> Clean(values[i])
      modifies this`crc, data
      ensures Holds(SetVar(es, name, values, data.Length).0) && rc == SetVar(es, name, values, data.Length).1
      ensures rc == if Refused(es, name, values, data.Length) then 1 else 0
      ensures if rc == 0 then CrcCurrent() else crc == old(crc)
    {
      SetVarMeaning(es, name, values, data.Length, name);
      var found, env, nxt;
      ghost var i;
      found, env, nxt, i := FindVar(name, es);
      if found && SetOnce(name) {
        return 1;
      }
      if found {
        DeleteAt(env, nxt, es, i);
        RemoveAll(es, name, i);
      } else {
        RemoveNone(es, name);
      }
      RemoveFacts(es, name, name);
      ghost var rest := Remove(es, name);
      assert Shows(data[..], rest);
      if values == [] {
        EnvCrcUpdate();
        return 0;
      }
      rc := Append(name, values, rest);
    }

    /** "Append new definition at the end" (lines 302-336) */
    method Append(name: Text, values: seq<Text>, ghost es: seq<Entry>) returns (rc: int)
      requires data.Length >= 2 && Shows(data[..], es) && Entries(es) && IsName(name) && values != [] &&
               forall i :: 0 <= i < |values| ==> Clean(values[i])
      modifies this`crc, data
      ensures var new_ := es + [Entry(name, Join(values))];
        if |Image(new_)| <= data.Length then rc == 0 && Shows(data[..], new_) && CrcCurrent()
        else rc == 1 && data[..] == old(data[..]) && crc == old(crc)
    {
      ghost var e := Entry(name, Join(values));
      ImageMore(es, e);
      var env := FindEnd(es);
      var len := Needed(name, values);
      if len > data.Length - env {
        return 1;
      }
      PrefixShown(data[..], es, |es|);
      assert es[..|es|] == es && data[..env] == data[..][..env];
      WriteEntry(env, name, values);
      Shown(data[..], es + [e], Packed(es) + Line(e) + [NUL, NUL]);
      EnvCrcUpdate();
      rc := 0;
    }
  }
}

/**
 Command lines (uboot/common/main.c): separators, quotes, escapes and macros.
 */
module CommandLine {

  datatype Option<T> = None | Some(value: T)

  /** `getenv` */
  type Env = string -> Option<string>

  const NUL := '\0'
  const BACKSLASH := '\\'
  const QUOTE := '\''

  // ---- process_macros as a machine on characters ----------------------------------------------------------

  /** Plain text, after '$', inside a macro (with the raw characters of its name), inside quotes. */
  datatype State = Plain | Dollar | Name(raw: string) | Quoted

  predicate Opens(c: char) { c == '(' || c == '{' }
  predicate Closes(c: char) { c == ')' || c == '}' }

  function Value(env: Env, name: string): string
  {
    match env(name) case None => "" case Some(v) => v
  }

  /** The next character, with an escape removed; none at the end of the input. */
  datatype Taken = Taken(c: char, prev: char, raw: string, rest: string) | End

  function Take(s: string, st: State, prev: char): (t: Taken)
    ensures t.Taken? ==> |t.rest| < |s| && s == t.raw + [t.c] + t.rest
  {
    if s == "" then End
    else if !st.Quoted? && s[0] == BACKSLASH && prev != BACKSLASH then
      if |s| == 1 then End else Taken(s[1], BACKSLASH, [s[0]], s[2..])
    else Taken(s[0], prev, "", s[1..])
  }

  /** What a character is replaced by, and the state after it. */
  function Step(env: Env, st: State, t: Taken): (string, State)
    requires t.Taken?
  {
    var special := t.prev != BACKSLASH;
    match st
    case Plain =>
      if t.c == QUOTE && special then ("", Quoted)
      else if t.c == '$' && special then ("", Dollar)
      else ([t.c], Plain)
    case Dollar => if Opens(t.c) then ("", Name("")) else (['$', t.c], Plain)
    case Name(raw) => if Closes(t.c) then (Value(env, raw + t.raw), Plain) else ("", Name(raw + t.raw + [t.c]))
    case Quoted => if t.c == QUOTE && special then ("", Plain) else ([t.c], Quoted)
  }

  /** The text with all macros replaced. */
  function Macros(env: Env, s: string, st: State, prev: char): string
    decreases |s|
  {
    match Take(s, st, prev)
    case End => ""
    case Taken(c, _, _, rest) =>
      var (out, st') := Step(env, st, Take(s, st, prev));
      out + Macros(env, rest, st', c)
  }

  // ---- the meaning of macros in text without escapes --------------------------------------------------------

  function Find(s: string, p: char -> bool): (k: nat)
    ensures k <= |s| && (k < |s| ==> p(s[k])) && forall i :: 0 <= i < k ==> !p(s[i])
  {
    if s == "" || p(s[0]) then 0 else 1 + Find(s[1..], p)
  }

  /** Replaces macros, takes quoted text as it is; what is not closed goes to the end of the line. */
  function Expand(env: Env, s: string): string
    decreases |s|
  {
    if s == "" then ""
    else if s[0] == QUOTE then
      var k := Find(s[1..], c => c == QUOTE);
      s[1..][..k] + (if k < |s| - 1 then Expand(env, s[k + 2..]) else "")
    else if s[0] == '$' then
      if |s| == 1 then ""
      else if Opens(s[1]) then
        var k := Find(s[2..], Closes);
        if k < |s| - 2 then Value(env, s[2..][..k]) + Expand(env, s[k + 3..]) else ""
      else s[..2] + Expand(env, s[2..])
    else [s[0]] + Expand(env, s[1..])
  }

  predicate NoEscape(s: string) { forall i :: 0 <= i < |s| ==> s[i] != BACKSLASH }

  lemma QuotedStep(env: Env, s: string, prev: char)
    requires s != ""
    ensures Macros(env, s, Quoted, prev) ==
              if s[0] == QUOTE && prev != BACKSLASH then Macros(env, s[1..], Plain, QUOTE)
              else [s[0]] + Macros(env, s[1..], Quoted, s[0])
  {
  }

  lemma NameStep(env: Env, s: string, raw: string, prev: char)
    requires s != "" && (s[0] != BACKSLASH || prev == BACKSLASH)
    ensures Macros(env, s, Name(raw), prev) ==
            if Closes(s[0]) then Value(env, raw) + Macros(env, s[1..], Plain, s[0])
            else Macros(env, s[1..], Name(raw + [s[0]]), s[0])
  {
    assert raw + "" == raw;
  }

  lemma Front(w: string, m: string)
    requires w != ""
    ensures [w[0]] + (w[1..] + m) == w + m
  {
    assert [w[0]] + w[1..] == w;
  }

  /** Text without a closing quote is passed on. */
  lemma {:induction false} QuotedRun(env: Env, w: string, t: string, prev: char) returns (p: char)
    requires NoEscape(w) && prev != BACKSLASH && forall i :: 0 <= i < |w| ==> w[i] != QUOTE
    ensures p != BACKSLASH && Macros(env, w + t, Quoted, prev) == w + Macros(env, t, Quoted, p)
    decreases |w|
  {
    if w == "" {
      assert w + t == t;
      p := prev;
    } else {
      QuotedStep(env, w + t, prev);
      assert (w + t)[1..] == w[1..] + t && (w + t)[0] == w[0];
      p := QuotedRun(env, w[1..], t, w[0]);
      Front(w, Macros(env, t, Quoted, p));
    }
  }

  lemma MacrosQuoted(env: Env, s: string, prev: char)
    requires NoEscape(s) && prev != BACKSLASH
    ensures var k := Find(s, c => c == QUOTE);
      Macros(env, s, Quoted, prev) == s[..k] + (if k < |s| then Macros(env, s[k + 1..], Plain, QUOTE) else "")
  {
    var k := Find(s, c => c == QUOTE);
    assert s == s[..k] + s[k..];
    var p := QuotedRun(env, s[..k], s[k..], prev);
    if k < |s| { QuotedStep(env, s[k..], p); }
  }

  /** The characters of a name are collected. */
  lemma {:induction false} NameRun(env: Env, w: string, t: string, raw: string, prev: char) returns (p: char)
    requires NoEscape(w) && prev != BACKSLASH && forall i :: 0 <= i < |w| ==> !Closes(w[i])
    ensures p != BACKSLASH && Macros(env, w + t, Name(raw), prev) == Macros(env, t, Name(raw + w), p)
    decreases |w|
  {
    if w == "" {
      assert w + t == t && raw + w == raw;
      p := prev;
    } else {
      NameStep(env, w + t, raw, prev);
      assert (w + t)[1..] == w[1..] + t && (w + t)[0] == w[0];
      p := NameRun(env, w[1..], t, raw + [w[0]], w[0]);
      assert raw + [w[0]] + w[1..] == raw + w;
    }
  }

  lemma MacrosName(env: Env, s: string, raw: string, prev: char)
    requires NoEscape(s) && prev != BACKSLASH
    ensures var k := Find(s, Closes);
      Macros(env, s, Name(raw), prev) ==
        if k < |s| then Value(env, raw + s[..k]) + Macros(env, s[k + 1..], Plain, s[k]) else ""
  {
    var k := Find(s, Closes);
    assert s == s[..k] + s[k..];
    var p := NameRun(env, s[..k], s[k..], raw, prev);
    if k < |s| { NameStep(env, s[k..], raw + s[..k], p); }
  }

  /** Without escapes, the machine replaces macros as they are meant. */
  lemma {:induction false} MacrosExpand(env: Env, s: string, prev: char)
    requires NoEscape(s) && prev != BACKSLASH
    ensures Macros(env, s, Plain, prev) == Expand(env, s)
    decreases |s|, 2
  {
    if s != "" {
      var c, rest := s[0], s[1..];
      if c == QUOTE {
        MacrosQuoted(env, rest, c);
        var k := Find(rest, c => c == QUOTE);
        if k < |rest| {
          assert rest[k + 1..] == s[k + 2..];
          MacrosExpand(env, s[k + 2..], QUOTE);
        }
      } else if c == '$' {
        if |s| > 1 { MacrosDollar(env, s); }
      } else {
        MacrosExpand(env, rest, c);
      }
    }
  }

  lemma DollarStep(env: Env, s: string)
    requires |s| > 1 && s[1] != BACKSLASH
    ensures Macros(env, s[1..], Dollar, '$') ==
              if Opens(s[1]) then Macros(env, s[2..], Name(""), s[1])
              else ['$', s[1]] + Macros(env, s[2..], Plain, s[1])
  {
    assert s[1..][1..] == s[2..];
  }

  lemma {:induction false} MacrosDollar(env: Env, s: string)
    requires NoEscape(s) && |s| > 1 && s[0] == '$'
    ensures Macros(env, s[1..], Dollar, '$') == Expand(env, s)
    decreases |s|, 1
  {
    DollarStep(env, s);
    if Opens(s[1]) {
      NameExpands(env, s);
    } else {
      MacrosExpand(env, s[2..], s[1]);
      assert s[..2] == ['$', s[1]];
    }
  }

  lemma {:induction false} NameExpands(env: Env, s: string)
    requires NoEscape(s) && |s| > 1 && s[0] == '$' && Opens(s[1])
    ensures Macros(env, s[2..], Name(""), s[1]) == Expand(env, s)
    decreases |s|, 0
  {
    var rest := s[2..];
    MacrosName(env, rest, "", s[1]);
    var k := Find(rest, Closes);
    assert "" + rest[..k] == rest[..k];
    if k < |rest| {
      assert rest[k + 1..] == s[k + 3..];
      MacrosExpand(env, s[k + 3..], rest[k]);
    }
  }

  lemma NameEscape(env: Env, s: string, raw: string, prev: char)
    requires |s| >= 2 && s[0] == BACKSLASH != prev
    ensures Macros(env, s, Name(raw), prev) ==
              if Closes(s[1]) then Value(env, raw + [BACKSLASH]) + Macros(env, s[2..], Plain, s[1])
              else Macros(env, s[2..], Name(raw + [BACKSLASH, s[1]]), s[1])
  {
    assert raw + [BACKSLASH] + [s[1]] == raw + [BACKSLASH, s[1]];
  }

  // What is replaced in any text, escapes or not

  /** The name of a macro is everything up to the first closing bracket, escapes included. */
  lemma {:induction false} NameEnds(env: Env, w: string, close: char, t: string, raw: string, prev: char)
    requires (forall i :: 0 <= i < |w| ==> w[i] !in {')', '}'}) && close in {')', '}'}
    ensures Macros(env, w + [close] + t, Name(raw), prev) == Value(env, raw + w) + Macros(env, t, Plain, close)
    decreases |w|
  {
    var k := if w != "" && w[0] == BACKSLASH != prev then 2 else 1;
    if |w| < k {
      NameLast(env, w, close, t, raw, prev);
    } else {
      NameMore(env, w, k, close, t, raw, prev);
      NameEnds(env, w[k..], close, t, raw + w[..k], w[k - 1]);
      NameGrows(raw, w, k);
    }
  }

  lemma NameLast(env: Env, w: string, close: char, t: string, raw: string, prev: char)
    requires close in {')', '}'} && (w == "" || (|w| == 1 && w[0] == BACKSLASH != prev))
    ensures Macros(env, w + [close] + t, Name(raw), prev) == Value(env, raw + w) + Macros(env, t, Plain, close)
  {
    var s := w + [close] + t;
    if w == "" {
      assert s[0] == close && s[1..] == t && raw + w == raw;
      NameStep(env, s, raw, prev);
    } else {
      assert w == [BACKSLASH] && s[0] == BACKSLASH && s[1] == close && s[2..] == t;
      NameEscape(env, s, raw, prev);
    }
  }

  lemma NameMore(env: Env, w: string, k: nat, close: char, t: string, raw: string, prev: char)
    requires 1 <= k <= |w| && w[k - 1] !in {')', '}'} && k == if w[0] == BACKSLASH != prev then 2 else 1
    ensures Macros(env, w + [close] + t, Name(raw), prev) ==
              Macros(env, w[k..] + [close] + t, Name(raw + w[..k]), w[k - 1])
  {
    var s := w + [close] + t;
    assert s[0] == w[0] && s[k - 1] == w[k - 1] && s[k..] == w[k..] + [close] + t;
    NameGrows(raw, w, k);
    if k == 2 { NameEscape(env, s, raw, prev); } else { NameStep(env, s, raw, prev); }
  }

  lemma NameGrows(raw: string, w: string, k: nat)
    requires k <= |w|
    ensures raw + w[..k] + w[k..] == raw + w
    ensures k == 1 ==> w[..k] == [w[0]]
    ensures k == 2 ==> w[..k] == [w[0], w[1]]
  {
  }

  /** A macro stands for the value of the variable, and for nothing if it is not defined. */
  lemma MacroReplaced(env: Env, open: char, w: string, close: char, t: string, prev: char)
    requires open in {'(', '{'} && close in {')', '}'} && (forall i :: 0 <= i < |w| ==> w[i] !in {')', '}'})
    requires prev != BACKSLASH
    ensures Macros(env, ['$', open] + w + [close] + t, Plain, prev) ==
              (if env(w).Some? then env(w).value else "") + Macros(env, t, Plain, close)
  {
    assert ['$', open] + w + [close] + t == ['$', open] + (w + [close] + t);
    MacroOpens(env, open, w + [close] + t, prev);
    NameEnds(env, w, close, t, "", open);
    assert "" + w == w;
  }

  lemma MacroOpens(env: Env, open: char, u: string, prev: char)
    requires open in {'(', '{'} && prev != BACKSLASH
    ensures Macros(env, ['$', open] + u, Plain, prev) == Macros(env, u, Name(""), open)
  {
    var s := ['$', open] + u;
    assert s[1..] == [open] + u && s[2..] == u && s[1] == open;
    DollarStep(env, s);
    assert Macros(env, s, Plain, prev) == "" + Macros(env, s[1..], Dollar, '$');
  }

  /** A backslash makes the next character, whatever it is, stand for itself. */
  lemma EscapedKept(env: Env, c: char, t: string, prev: char)
    requires prev != BACKSLASH
    ensures Macros(env, ['\\', c] + t, Plain, prev) == [c] + Macros(env, t, Plain, c)
  {
    var s := ['\\', c] + t;
    assert s[0] == BACKSLASH && s[1] == c && s[2..] == t;
  }

  /** In quoted text every quote has a backslash before it, and the last character is none. */
  predicate QuotedText(w: string, prev: char)
  {
    if w == "" then prev != '\\' else (w[0] == '\'' ==> prev == '\\') && QuotedText(w[1..], w[0])
  }

  /** Quoted text is kept as it is, with its backslashes. */
  lemma {:induction false} QuotedKept(env: Env, w: string, t: string, prev: char)
    requires QuotedText(w, prev)
    ensures Macros(env, w + ['\''] + t, Quoted, prev) == w + Macros(env, t, Plain, '\'')
    decreases |w|
  {
    if w == "" {
      QuotedEnds(env, t, prev);
      assert w + Macros(env, t, Plain, QUOTE) == Macros(env, t, Plain, QUOTE) && w + [QUOTE] + t == [QUOTE] + t;
    } else {
      QuotedMore(env, w, t, prev);
      QuotedKept(env, w[1..], t, w[0]);
      Front(w, Macros(env, t, Plain, QUOTE));
    }
  }

  lemma QuotedEnds(env: Env, t: string, prev: char)
    requires prev != BACKSLASH
    ensures Macros(env, [QUOTE] + t, Quoted, prev) == Macros(env, t, Plain, QUOTE)
  {
    assert ([QUOTE] + t)[1..] == t;
    QuotedStep(env, [QUOTE] + t, prev);
  }

  lemma QuotedMore(env: Env, w: string, t: string, prev: char)
    requires w != "" && (w[0] == QUOTE ==> prev == BACKSLASH)
    ensures Macros(env, w + [QUOTE] + t, Quoted, prev) == [w[0]] + Macros(env, w[1..] + [QUOTE] + t, Quoted, w[0])
  {
    var s := w + [QUOTE] + t;
    assert s[0] == w[0] && s[1..] == w[1..] + [QUOTE] + t;
    QuotedStep(env, s, prev);
  }

  // ---- quoting --------------------------------------------------------------------------------------------------

  predicate Special(c: char) { c == ';' || c == '$' || c == QUOTE }

  /** A backslash before every special character */
  function Escape(s: string): string
  {
    if s == "" then "" else (if Special(s[0]) then [BACKSLASH, s[0]] else [s[0]]) + Escape(s[1..])
  }

  /** Macro processing removes exactly the escapes. */
  lemma {:induction false} EscapeUndone(env: Env, s: string, prev: char)
    requires NoEscape(s) && prev != BACKSLASH
    ensures Macros(env, Escape(s), Plain, prev) == s
    decreases |s|
  {
    if s != "" {
      var e := Escape(s);
      if Special(s[0]) {
        assert e[0] == BACKSLASH && e[1] == s[0] && e[2..] == Escape(s[1..]);
      } else {
        assert e[0] == s[0] && e[1..] == Escape(s[1..]);
      }
      EscapeUndone(env, s[1..], s[0]);
    }
  }

  // ---- separators -----------------------------------------------------------------------------------------------

  /** Where the first command ends: at an unescaped ';' outside quotes that is not the first character.
      The character before the line is whatever happens to be there. */
  function Separator(s: string, i: nat, quotes: bool, before: char): (k: nat)
    requires i <= |s|
    ensures i <= k <= |s|
    decreases |s| - i
  {
    if i == |s| then i
    else
      var prev := if i == 0 then before else s[i - 1];
      var q := if s[i] == QUOTE && prev != BACKSLASH then !quotes else quotes;
      if !q && s[i] == ';' && i != 0 && prev != BACKSLASH then i else Separator(s, i + 1, q, before)
  }

  function Tokens(s: string, before: char): seq<string>
    decreases |s|
  {
    if s == "" then []
    else
      var k := Separator(s, 0, false, before);
      if k < |s| then [s[..k]] + Tokens(s[k + 1..], NUL) else [s]
  }

  /** How many quotes without a backslash before them are among the first n characters; `before` stands before
      the text. */
  function Quotes(s: string, n: nat, before: char): nat
    requires n <= |s|
  {
    if n == 0 then 0
    else
      Quotes(s, n - 1, before) +
      if s[n - 1] == QUOTE && (if n == 1 then before else s[n - 2]) != BACKSLASH then 1 else 0
  }

  /** A ';' that is not the first character, has no backslash before it and is outside quotes. */
  predicate EndsCommand(s: string, i: nat, before: char)
  {
    0 < i < |s| && s[i] == ';' && s[i - 1] != BACKSLASH && Quotes(s, i, before) % 2 == 0
  }

  /** The scan finds the first ';' that ends a command. */
  lemma {:induction false} SeparatorIs(s: string, i: nat, inquotes: bool, before: char)
    requires i <= |s| && (inquotes <==> Quotes(s, i, before) % 2 == 1)
    ensures var sep := Separator(s, i, inquotes, before);
      i <= sep <= |s| && (sep < |s| ==> EndsCommand(s, sep, before)) &&
      forall j: nat :: i <= j < sep ==> !EndsCommand(s, j, before)
    decreases |s| - i
  {
    if i < |s| {
      var prev := if i == 0 then before else s[i - 1];
      var q := if s[i] == QUOTE && prev != BACKSLASH then !inquotes else inquotes;
      assert Quotes(s, i + 1, before) == Quotes(s, i, before) + if s[i] == QUOTE && prev != BACKSLASH then 1 else 0;
      SeparatorIs(s, i + 1, q, before);
    }
  }

  /** A line is cut at the first ';' that ends a command; for the rest, a NUL stands before it. */
  lemma TokensAre(s: string, before: char, k: nat)
    requires s != "" && k <= |s| && (k < |s| ==> EndsCommand(s, k, before))
    requires forall j: nat :: j < k ==> !EndsCommand(s, j, before)
    ensures Tokens(s, before) == if k < |s| then [s[..k]] + Tokens(s[k + 1..], '\0') else [s]
  {
    SeparatorIs(s, 0, false, before);
    var sep := Separator(s, 0, false, before);
    assert sep == k;
  }

  function Joined(cmds: seq<string>): string
  {
    if cmds == [] then "" else if |cmds| == 1 then Escape(cmds[0]) else Escape(cmds[0]) + [';'] + Joined(cmds[1..])
  }

  /** Backslashes in escaped text stand only before special characters, and all of those have one. */
  ghost predicate Escaped(e: string)
  {
    && (forall i :: 0 <= i < |e| && Special(e[i]) ==> i > 0 && e[i - 1] == BACKSLASH)
    && (e != "" ==> e[|e| - 1] != BACKSLASH)
  }

  lemma {:induction false} EscapeEscaped(s: string)
    requires NoEscape(s)
    ensures Escaped(Escape(s)) && (s != "" ==> Escape(s) != "")
  {
    if s != "" {
      EscapeEscaped(s[1..]);
      var a, b := if Special(s[0]) then [BACKSLASH, s[0]] else [s[0]], Escape(s[1..]);
      forall i | 0 <= i < |a + b| && Special((a + b)[i]) ensures i > 0 && (a + b)[i - 1] == BACKSLASH {
        if i >= |a| { assert b[i - |a|] == (a + b)[i]; assert i - |a| > 0 && b[i - |a| - 1] == BACKSLASH; }
      }
    }
  }

  /** The scan passes escaped text and stops at the separator behind it, or at the end. */
  lemma {:induction false} SeparatorAfter(e: string, t: string, i: nat, before: char)
    requires Escaped(e) && e != "" && i <= |e| && (t == "" || t[0] == ';')
    ensures Separator(e + t, i, false, before) == |e|
    decreases |e| - i
  {
    var s := e + t;
    if i < |e| {
      assert s[i] == e[i] && (i > 0 ==> s[i - 1] == e[i - 1]);
      SeparatorAfter(e, t, i + 1, before);
    } else if t != "" {
      assert s[i] == ';' && s[i - 1] == e[|e| - 1];
    }
  }

  /** Escaped commands, joined with ';', are taken apart again. */
  lemma {:induction false} TokensOfJoined(cmds: seq<string>, before: char)
    requires forall i :: 0 <= i < |cmds| ==> cmds[i] != "" && NoEscape(cmds[i])
    ensures Tokens(Joined(cmds), before) == seq(|cmds|, i requires 0 <= i < |cmds| => Escape(cmds[i]))
    decreases |cmds|
  {
    if cmds != [] {
      var e := Escape(cmds[0]);
      EscapeEscaped(cmds[0]);
      if |cmds| == 1 {
        SeparatorAfter(e, "", 0, before);
        assert e + "" == e;
      } else {
        var rest := Joined(cmds[1..]);
        assert Joined(cmds) == e + ([';'] + rest);
        SeparatorAfter(e, [';'] + rest, 0, before);
        TokensOfJoined(cmds[1..], NUL);
        assert Joined(cmds)[|e| + 1..] == rest;
      }
    }
  }

  // ---- the code ---------------------------------------------------------------------------------------------------

  /** As much of a text as fits. */
  function Cut(s: string, n: nat): string { if |s| <= n then s else s[..n] }

  lemma CutConcat(a: string, b: string, n: nat)
    requires |a| <= n
    ensures Cut(a + b, n) == a + Cut(b, n - |a|)
  {
  }

  /** The output may only grow until the buffer is full. */
  lemma CutStep(out: string, add: string, more: string, n: nat)
    requires |out| <= n
    ensures Cut(out + (add + more), n) == Cut(Cut(out + add, n) + more, n)
    ensures Cut(out + add, n) == out + Cut(add, n - |out|)
  {
    CutConcat(out, add, n);
    assert out + (add + more) == out + add + more;
  }

  /** `process_macros` (lines 587-691) with an output buffer of cbsize characters; the result ends with a
      NUL only if it does not fill the buffer. */
  method ProcessMacros(env: Env, input: string, cbsize: nat) returns (output: string, terminated: bool)
    ensures output == Cut(Macros(env, input, Plain, NUL), cbsize)
    ensures terminated <==> |output| < cbsize
  {
    var rest, st, prev := input, Plain, NUL;
    output := "";
    ghost var left := Macros(env, input, Plain, NUL);
    ghost var all := Cut(left, cbsize);
    while rest != "" && |output| < cbsize
      invariant |output| <= cbsize && left == Macros(env, rest, st, prev) && all == Cut(output + left, cbsize)
      decreases |rest|
    {
      var t := Take(rest, st, prev);
      if t.End? {
        MacrosEnd(env, rest, st, prev);
        break;
      }
      var (add, next) := Step(env, st, t);
      MacrosStep(env, rest, st, prev);
      left := Macros(env, t.rest, next, t.c);
      CutStep(output, add, left, cbsize);
      output := output + Cut(add, cbsize - |output|);
      rest, st, prev := t.rest, next, t.c;
    }
    terminated := |output| < cbsize;
    FullOutput(output, left, cbsize);
  }

  lemma MacrosEnd(env: Env, s: string, st: State, prev: char)
    requires Take(s, st, prev).End?
    ensures Macros(env, s, st, prev) == ""
  {
  }

  lemma MacrosStep(env: Env, s: string, st: State, prev: char)
    requires Take(s, st, prev).Taken?
    ensures var t := Take(s, st, prev); var (add, next) := Step(env, st, t);
      Macros(env, s, st, prev) == add + Macros(env, t.rest, next, t.c)
  {
  }

  lemma FullOutput(out: string, more: string, n: nat)
    requires |out| <= n && (|out| == n || more == "")
    ensures Cut(out + more, n) == out
  {
    CutConcat(out, more, n);
  }

  /** The end of the first command of a line (lines 768-782) */
  method FindSeparator(str: string, before: char) returns (sep: nat)
    ensures sep == Separator(str, 0, false, before)
    ensures sep <= |str| && (sep < |str| ==> EndsCommand(str, sep, before)) &&
            forall j: nat :: j < sep ==> !EndsCommand(str, j, before)
  {
    SeparatorIs(str, 0, false, before);
    var inquotes := false;
    sep := 0;
    while sep < |str|
      invariant sep <= |str| && Separator(str, 0, false, before) == Separator(str, sep, inquotes, before)
    {
      var prev := if sep == 0 then before else str[sep - 1];
      if str[sep] == QUOTE && prev != BACKSLASH {
        inquotes := !inquotes;
      }
      if !inquotes && str[sep] == ';' && sep != 0 && prev != BACKSLASH {
        return;
      }
      sep := sep + 1;
    }
  }

  /** Takes the first command off a line (lines 768-791). */
  method TakeToken(str: string, prev: char) returns (token: string, rest: string, prev': char)
    requires str != ""
    ensures Tokens(str, prev) == [token] + Tokens(rest, prev') && |rest| < |str|
  {
    var sep := FindSeparator(str, prev);
    token, rest, prev' := str[..sep], "", prev;
    if sep < |str| {
      rest, prev' := str[sep + 1..], NUL;
    } else {
      assert token == str && [token] + [] == [token];
    }
  }

  /** What a command becomes */
  function Final(env: Env, token: string, cbsize: nat): string { Cut(Macros(env, token, Plain, NUL), cbsize) }

  function Finals(env: Env, tokens: seq<string>, cbsize: nat): seq<string>
  {
    if tokens == [] then [] else [Final(env, tokens[0], cbsize)] + Finals(env, tokens[1..], cbsize)
  }

  lemma {:induction false} FinalsAt(env: Env, tokens: seq<string>, cbsize: nat, i: nat)
    ensures |Finals(env, tokens, cbsize)| == |tokens|
    ensures i < |tokens| ==> Finals(env, tokens, cbsize)[i] == Final(env, tokens[i], cbsize)
  {
    if tokens != [] { FinalsAt(env, tokens[1..], cbsize, if i > 0 then i - 1 else 0); }
  }

  lemma FinalsStep(env: Env, token: string, rest: seq<string>, done: seq<string>, cbsize: nat)
    ensures done + Finals(env, [token] + rest, cbsize) == done + [Final(env, token, cbsize)] + Finals(env, rest, cbsize)
  {
    assert ([token] + rest)[1..] == rest;
  }

  /** The commands that run_command carries out (lines 748-802), after macro processing; none if the line is
      too long. */
  method RunCommand(env: Env, cmd: string, cbsize: nat, before: char) returns (finals: seq<string>, ok: bool)
    ensures ok <==> cmd != "" && |cmd| < cbsize
    ensures !ok ==> finals == []
    ensures ok ==> finals == Finals(env, Tokens(cmd, before), cbsize)
  {
    finals := [];
    if cmd == "" || |cmd| >= cbsize {
      return [], false;
    }
    ok := true;
    var str, prev := cmd, before;
    while str != ""
      invariant Finals(env, Tokens(cmd, before), cbsize) == finals + Finals(env, Tokens(str, prev), cbsize)
      decreases |str|
    {
      var token, rest, p := TakeToken(str, prev);
      var final, _ := ProcessMacros(env, token, cbsize);
      FinalsStep(env, token, Tokens(rest, p), finals, cbsize);
      finals, str, prev := finals + [final], rest, p;
    }
  }

  /** Commands that are escaped and joined with ';' come out of the line exactly as they were. */
  method QuotingRoundTrip(env: Env, cmds: seq<string>, cbsize: nat, before: char) returns (finals: seq<string>)
    requires cmds != [] && (forall i :: 0 <= i < |cmds| ==> cmds[i] != "" && NoEscape(cmds[i])) &&
             |Joined(cmds)| < cbsize
    ensures finals == cmds
  {
    TokensOfJoined(cmds, before);
    EscapeEscaped(cmds[0]);
    var ok;
    finals, ok := RunCommand(env, Joined(cmds), cbsize, before);
    FinalsAt(env, Tokens(Joined(cmds), before), cbsize, 0);
    forall i | 0 <= i < |cmds| ensures finals[i] == cmds[i] {
      FinalsAt(env, Tokens(Joined(cmds), before), cbsize, i);
      EscapeUndone(env, cmds[i], NUL);
      JoinedFits(cmds, i);
    }
  }

  lemma {:induction false} JoinedFits(cmds: seq<string>, i: nat)
    requires i < |cmds|
    ensures |cmds[i]| <= |Escape(cmds[i])| <= |Joined(cmds)|
    decreases |cmds|
  {
    EscapeGrows(cmds[i]);
    if i > 0 { JoinedFits(cmds[1..], i - 1); }
  }

  lemma {:induction false} EscapeGrows(s: string)
    ensures |s| <= |Escape(s)|
  {
    if s != "" { EscapeGrows(s[1..]); }
  }
}
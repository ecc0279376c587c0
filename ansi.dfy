/** The front end's ANSI handling: `_strip_ansi` (gui.py:102-103) removes every
    `ESC [ digits-or-semicolons m` select-graphic-rendition sequence, scanning left to right as
    `re.sub(r'\x1b\[[0-9;]*m', '', s)` does. */
module Ansi {
  import opened Text

  const Esc: char := '\U{1b}'

  /** `ANSI_RED` and `ANSI_RESET` (gui.py:799-800). */
  const Red: string := [Esc] + "[31m"
  const Reset: string := [Esc] + "[0m"

  predicate IsParamChar(c: char)
  {
    IsAsciiDigit(c) || c == ';'
  }

  predicate NoEsc(s: string)
  {
    forall i :: 0 <= i < |s| ==> s[i] != Esc
  }

  /** A select-graphic-rendition sequence with the given parameter text. */
  function Sgr(params: string): (r: string)
    requires forall i :: 0 <= i < |params| ==> IsParamChar(params[i])
  {
    [Esc, '['] + params + "m"
  }

  /** The length of the leading run of `[0-9;]` characters. */
  function ParamRun(s: string): (n: nat)
    ensures n <= |s| && (forall i :: 0 <= i < n ==> IsParamChar(s[i])) && (n == |s| || !IsParamChar(s[n]))
  {
    if s != [] && IsParamChar(s[0]) then 1 + ParamRun(s[1..]) else 0
  }

  /** The length of the SGR sequence that `s` starts with, if it starts with one. The `[0-9;]*`
      run is greedy and giving a character back can never produce the closing `m`, so the one
      candidate length is the right one. */
  function SgrLen(s: string): (r: Option<nat>)
    ensures r.Some? ==> 3 <= r.value <= |s| && s[0] == Esc && s[r.value - 1] == 'm'
  {
    if |s| >= 2 && s[0] == Esc && s[1] == '[' then
      var j := 2 + ParamRun(s[2..]);
      if j < |s| && s[j] == 'm' then Some(j + 1) else None
    else None
  }

  /** `_strip_ansi`: at each position either an SGR sequence is removed or one character is kept. */
  function StripAnsi(s: string): (r: string)
    ensures |r| <= |s|
    decreases |s|
  {
    if s == [] then []
    else match SgrLen(s)
      case Some(n) => StripAnsi(s[n..])
      case None => [s[0]] + StripAnsi(s[1..])
  }

  /** Text without escape characters passes through unchanged. */
  lemma {:induction false} StripAnsiNoEsc(s: string)
    requires NoEsc(s)
    ensures StripAnsi(s) == s
    decreases |s|
  {
    if s != [] {
      assert SgrLen(s).None?;
      StripAnsiNoEsc(s[1..]);
    }
  }

  /** Escape-free text in front of the rest is kept as it is. */
  lemma {:induction false} StripAnsiPlainPrefix(p: string, t: string)
    requires NoEsc(p)
    ensures StripAnsi(p + t) == p + StripAnsi(t)
    decreases |p|
  {
    if p != [] {
      var s := p + t;
      assert s[0] == p[0];
      StripAnsiKeep(s);
      assert s[1..] == p[1..] + t;
      StripAnsiPlainPrefix(p[1..], t);
      assert [p[0]] + (p[1..] + StripAnsi(t)) == p + StripAnsi(t);
    } else {
      assert p + t == t;
    }
  }

  /** A text that does not start with an escape keeps its first character. */
  lemma StripAnsiKeep(s: string)
    requires s != [] && (s[0] != Esc || SgrLen(s).None?)
    ensures StripAnsi(s) == [s[0]] + StripAnsi(s[1..])
  {
  }

  /** A leading SGR sequence is removed completely, whatever follows it. */
  lemma SgrLenOf(params: string, t: string)
    requires forall i :: 0 <= i < |params| ==> IsParamChar(params[i])
    ensures SgrLen(Sgr(params) + t) == Some(|params| + 3)
  {
    var s := Sgr(params) + t;
    assert s[2..] == params + ("m" + t);
    ParamRunOf(params, "m" + t);
  }

  lemma ParamRunOf(params: string, t: string)
    requires forall i :: 0 <= i < |params| ==> IsParamChar(params[i])
    requires t != [] && !IsParamChar(t[0])
    ensures ParamRun(params + t) == |params|
    decreases |params|
  {
    if params != [] {
      assert (params + t)[1..] == params[1..] + t;
      ParamRunOf(params[1..], t);
    } else {
      assert params + t == t;
    }
  }

  lemma StripAnsiSgr(params: string, t: string)
    requires forall i :: 0 <= i < |params| ==> IsParamChar(params[i])
    ensures StripAnsi(Sgr(params) + t) == StripAnsi(t)
  {
    SgrLenOf(params, t);
    assert (Sgr(params) + t)[|params| + 3..] == t;
  }

  /** The engine's colouring of a red piece, `ANSI_RED + glyph + ANSI_RESET`, strips to the glyph. */
  lemma StripAnsiRedGlyph(c: char, t: string)
    requires c != Esc
    ensures StripAnsi(Red + [c] + Reset + t) == [c] + StripAnsi(t)
  {
    assert Red == Sgr("31");
    assert Reset == Sgr("0");
    assert Red + [c] + Reset + t == Sgr("31") + ([c] + (Sgr("0") + t));
    StripAnsiSgr("31", [c] + (Sgr("0") + t));
    StripAnsiPlainPrefix([c], Sgr("0") + t);
    StripAnsiSgr("0", t);
  }

  /** One pass is not always enough: removing an inner sequence can join the characters around
      it into a new one. This matters because the capture-list parser strips a line that the
      line handler has already stripped once. */
  lemma StripAnsiNotIdempotent(params: string)
    requires forall i :: 0 <= i < |params| ==> IsParamChar(params[i])
    ensures var s := [Esc, '['] + Sgr(params) + "m";
      StripAnsi(s) == [Esc, '[', 'm'] && StripAnsi(StripAnsi(s)) == []
  {
    StripAnsiNested(params);
    StripAnsiBareSgr();
  }

  lemma StripAnsiNested(params: string)
    requires forall i :: 0 <= i < |params| ==> IsParamChar(params[i])
    ensures StripAnsi([Esc, '['] + Sgr(params) + "m") == [Esc, '[', 'm']
  {
    var inner := Sgr(params) + "m";
    var s := [Esc, '['] + inner;
    assert [Esc, '['] + Sgr(params) + "m" == s;
    assert s[2..] == inner && inner[0] == Esc;
    assert SgrLen(s).None? by { assert ParamRun(s[2..]) == 0; }
    StripAnsiKeep(s);
    assert s[1..] == ['['] + inner;
    StripAnsiKeep(s[1..]);
    assert s[1..][1..] == inner;
    StripAnsiSgr(params, "m");
    StripAnsiNoEsc("m");
  }

  lemma StripAnsiBareSgr()
    ensures StripAnsi([Esc, '[', 'm']) == []
  {
    assert [Esc, '[', 'm'] == Sgr("") + "";
    StripAnsiSgr("", "");
  }
}

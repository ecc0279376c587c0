/** The two fixed patterns the line handler of `Board.draw` searches for (gui.py:407 and
    gui.py:413-418), written out as scanners: a check announcement, and the engine's own move. */
module EngineLines {
  import opened Text
  import opened Positions

  /** The Chinese word for check. */
  const CheckCjk: string := "将军"

  /** Characters that `\w` counts as word characters, as far as the engine's output goes:
      ASCII letters, digits and `_`, the Latin-1 letters, the CJK ideographs and the fullwidth
      letters and digits. */
  predicate IsWordChar(c: char)
  {
    || ('a' <= c <= 'z') || ('A' <= c <= 'Z') || ('0' <= c <= '9') || c == '_'
    || ('\U{c0}' <= c <= '\U{ff}' && c != '\U{d7}' && c != '\U{f7}')
    || ('\U{3400}' <= c <= '\U{4dbf}') || ('\U{4e00}' <= c <= '\U{9fff}')
    || ('\U{ff10}' <= c <= '\U{ff19}') || ('\U{ff21}' <= c <= '\U{ff3a}') || ('\U{ff41}' <= c <= '\U{ff5a}')
  }

  /** `c` matches the lower-case letter `l` of `check` under `re.IGNORECASE`: either case, and
      for `k` also the Kelvin sign, which folds to it. */
  predicate FoldsTo(c: char, l: char)
  {
    c == l || (c as int) + 32 == l as int || (l == 'k' && c == '\U{212a}')
  }

  /** `\bcheck\b` matches at `i`. */
  predicate CheckAt(s: string, i: int)
  {
    && 0 <= i && i + 5 <= |s|
    && FoldsTo(s[i], 'c') && FoldsTo(s[i + 1], 'h') && FoldsTo(s[i + 2], 'e')
    && FoldsTo(s[i + 3], 'c') && FoldsTo(s[i + 4], 'k')
    && (i == 0 || !IsWordChar(s[i - 1]))
    && (i + 5 == |s| || !IsWordChar(s[i + 5]))
  }

  /** `re.search(r"\bcheck\b", s, re.IGNORECASE)` finds a match, scanning from `from`. */
  predicate HasCheckWordFrom(s: string, from: nat)
    decreases |s| - from
  {
    from + 5 <= |s| && (CheckAt(s, from) || HasCheckWordFrom(s, from + 1))
  }

  predicate HasCheckWord(s: string)
  {
    HasCheckWordFrom(s, 0)
  }

  /** The scan finds a match exactly when there is one at some position. */
  lemma {:induction false} HasCheckWordFromIff(s: string, from: nat)
    ensures HasCheckWordFrom(s, from) <==> exists i :: from <= i && CheckAt(s, i)
    decreases |s| - from
  {
    if from + 5 <= |s| {
      HasCheckWordFromIff(s, from + 1);
      if exists i :: from <= i && CheckAt(s, i) {
        var i :| from <= i && CheckAt(s, i);
        if i > from {
          assert from + 1 <= i;
        }
      }
    }
  }

  /** The check test of the line handler, on the text freed of ANSI sequences. */
  predicate IsCheckLine(plain: string)
  {
    Contains(plain, CheckCjk) || HasCheckWord(plain)
  }

  /** A lone `check`, in any case, between non-word characters counts. */
  lemma CheckWordCounts(pre: string, w: string, post: string)
    requires |w| == 5 && FoldsTo(w[0], 'c') && FoldsTo(w[1], 'h') && FoldsTo(w[2], 'e')
    requires FoldsTo(w[3], 'c') && FoldsTo(w[4], 'k')
    requires pre == [] || !IsWordChar(pre[|pre| - 1])
    requires post == [] || !IsWordChar(post[0])
    ensures IsCheckLine(pre + w + post)
  {
    var s := pre + w + post;
    var i := |pre|;
    assert s[i..i + 5] == w;
    assert i > 0 ==> s[i - 1] == pre[|pre| - 1];
    assert i + 5 < |s| ==> s[i + 5] == post[0];
    assert CheckAt(s, i);
    HasCheckWordFromIff(s, 0);
  }

  /** `check` glued to a following word character, as in `Checkmate`, is not a match there. */
  lemma CheckmateIsNoMatch(s: string, i: int)
    requires 0 <= i && i + 5 < |s| && IsWordChar(s[i + 5])
    ensures !CheckAt(s, i)
  {
  }

  /** Scenario: `Checkmate!` is not a check line, `CHECK!` is. */
  lemma CheckScenario(a: string, b: string)
    requires a == "Checkmate!" && b == "CHECK!"
    ensures !IsCheckLine(a) && IsCheckLine(b)
  {
    assert !Contains(a, CheckCjk) by { NoCjkStart(a); }
    HasCheckWordFromIff(a, 0);
    forall i | 0 <= i ensures !CheckAt(a, i) {
      if 0 <= i && i + 5 <= |a| {
        if i != 0 {
          assert !FoldsTo(a[i], 'c') || !FoldsTo(a[i + 1], 'h');
        } else {
          CheckmateIsNoMatch(a, 0);
        }
      }
    }
    CheckWordCounts("", "CHECK", "!");
    assert "" + "CHECK" + "!" == b;
  }

  lemma {:induction false} NoCjkStart(s: string)
    requires forall i :: 0 <= i < |s| ==> s[i] as int < 0x80
    ensures !Contains(s, CheckCjk)
    decreases |s|
  {
    if |CheckCjk| <= |s| {
      assert s[..|CheckCjk|][0] != CheckCjk[0];
    }
    if s != [] {
      NoCjkStart(s[1..]);
    }
  }

  /** The fixed prefix of the engine's move announcement. */
  const MovePrefix: string := "My move:"

  /** The length of the leading run of whitespace (the greedy `\s*`). */
  function SpaceRun(s: string): (n: nat)
    ensures n <= |s| && (forall i :: 0 <= i < n ==> IsSpace(s[i])) && (n == |s| || !IsSpace(s[n]))
  {
    if s != [] && IsSpace(s[0]) then 1 + SpaceRun(s[1..]) else 0
  }

  /** `[a-i][0-9][a-i][0-9]`: a four-character move in the engine's notation. */
  predicate IsMoveText(m: string)
  {
    |m| == 4 && IsFile(m[0]) && IsAsciiDigit(m[1]) && IsFile(m[2]) && IsAsciiDigit(m[3])
  }

  /** `My move:\s*([a-i][0-9][a-i][0-9])` matched at `i`: the captured move. Giving back
      whitespace from the greedy `\s*` cannot help, because a whitespace character never
      matches `[a-i]`, so the one candidate is the longest run. */
  function MoveAt(s: string, i: nat): (r: Option<string>)
    requires i <= |s|
    ensures r.Some? ==> IsMoveText(r.value)
  {
    if !StartsWith(s[i..], MovePrefix) then None
    else
      var k := i + |MovePrefix| + SpaceRun(s[i + |MovePrefix|..]);
      if k + 4 <= |s| && IsMoveText(s[k..k + 4]) then Some(s[k..k + 4]) else None
  }

  /** `MOVE_RE.search(s)`: the move at the leftmost position that matches, scanning from `from`. */
  function MoveSearch(s: string, from: nat): (r: Option<string>)
    requires from <= |s|
    ensures r.Some? ==> IsMoveText(r.value)
    decreases |s| - from
  {
    match MoveAt(s, from)
    case Some(m) => Some(m)
    case None => if from == |s| then None else MoveSearch(s, from + 1)
  }

  function MoveToken(s: string): (r: Option<string>)
    ensures r.Some? ==> IsMoveText(r.value)
  {
    MoveSearch(s, 0)
  }

  /** A reported move needs the whole announcement, so the line has at least 12 characters. */
  lemma {:induction false} MoveSearchLength(s: string, from: nat)
    requires from <= |s|
    ensures MoveSearch(s, from).Some? ==> from + |MovePrefix| + 4 <= |s|
    decreases |s| - from
  {
    if MoveAt(s, from).None? && from < |s| {
      MoveSearchLength(s, from + 1);
    }
  }

  lemma MoveTokenLength(s: string)
    ensures MoveToken(s).Some? ==> |s| >= 12
  {
    MoveSearchLength(s, 0);
  }

  /** Both halves of a reported move are well-formed position names. */
  lemma MoveHalvesArePositions(s: string)
    requires MoveToken(s).Some?
    ensures var m := MoveToken(s).value;
      CmdToRowCol(m[..2]).Some? && CmdToRowCol(m[2..]).Some?
  {
  }

  /** The search reports a move announced after text that holds no `M`, whatever follows. */
  lemma MoveTokenOf(pre: string, sp: string, m: string, post: string)
    requires forall i :: 0 <= i < |pre| ==> pre[i] != 'M'
    requires forall i :: 0 <= i < |sp| ==> IsSpace(sp[i])
    requires IsMoveText(m)
    ensures MoveToken(pre + MovePrefix + sp + m + post) == Some(m)
  {
    var s := pre + MovePrefix + sp + m + post;
    MoveSkipsPrefix(s, pre, 0);
    MoveAtAnnouncement(s, pre, sp, m, post);
  }

  lemma {:induction false} MoveSkipsPrefix(s: string, pre: string, from: nat)
    requires from <= |pre| <= |s| && s[..|pre|] == pre
    requires forall i :: 0 <= i < |pre| ==> pre[i] != 'M'
    ensures MoveSearch(s, from) == MoveSearch(s, |pre|)
    decreases |pre| - from
  {
    if from < |pre| {
      assert s[from] == pre[from];
      assert !StartsWith(s[from..], MovePrefix) by {
        if |MovePrefix| <= |s[from..]| {
          assert s[from..][..|MovePrefix|][0] == s[from];
        }
      }
      MoveSkipsPrefix(s, pre, from + 1);
    }
  }

  lemma MoveAtAnnouncement(s: string, pre: string, sp: string, m: string, post: string)
    requires forall i :: 0 <= i < |sp| ==> IsSpace(sp[i])
    requires IsMoveText(m)
    requires s == pre + MovePrefix + sp + m + post
    ensures MoveSearch(s, |pre|) == Some(m)
  {
    var i := |pre|;
    var j := i + |MovePrefix|;
    assert s[i..][..|MovePrefix|] == MovePrefix;
    var t := s[j..];
    assert t == sp + (m + post);
    SpaceRunOf(sp, m + post);
    var k := j + |sp|;
    assert s[k..k + 4] == m;
  }

  lemma {:induction false} SpaceRunOf(sp: string, t: string)
    requires forall i :: 0 <= i < |sp| ==> IsSpace(sp[i])
    requires t != [] && !IsSpace(t[0])
    ensures SpaceRun(sp + t) == |sp|
    decreases |sp|
  {
    if sp != [] {
      assert (sp + t)[1..] == sp[1..] + t;
      SpaceRunOf(sp[1..], t);
    } else {
      assert sp + t == t;
    }
  }

  /** Scenario: `My move: h2e2` reports the move `h2e2`. */
  lemma MoveScenario(s: string)
    requires s == "My move: h2e2"
    ensures MoveToken(s) == Some("h2e2")
  {
    assert s == "" + MovePrefix + " " + "h2e2" + "";
    MoveTokenOf("", " ", "h2e2", "");
  }
}

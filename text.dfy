/** Python string primitives that the front end relies on, written out over `seq<char>`:
    `str.isspace`, `str.strip`/`lstrip`, `str.split()`, `startswith`, `in`, `find` and
    `replace(p, '')`. */
module Text {

  datatype Option<+T> = None | Some(value: T)

  /** Python's `str.isspace()` (and the `\s` class of `re` on `str` patterns). */
  predicate IsSpace(c: char)
  {
    || ('\t' <= c <= '\r')
    || ('\U{1c}' <= c <= '\U{1f}')
    || c == ' ' || c == '\U{85}' || c == '\U{a0}' || c == '\U{1680}'
    || ('\U{2000}' <= c <= '\U{200a}')
    || c == '\U{2028}' || c == '\U{2029}' || c == '\U{202f}' || c == '\U{205f}' || c == '\U{3000}'
  }

  /** `c.isdigit()` restricted to the ASCII digits the engine prints. */
  predicate IsAsciiDigit(c: char)
  {
    '0' <= c <= '9'
  }

  /** `int(c)` for an ASCII digit. */
  function DigitValue(c: char): (n: int)
    requires IsAsciiDigit(c)
    ensures 0 <= n <= 9
  {
    c as int - '0' as int
  }

  /** `str(n)` for a single digit. */
  function DigitChar(n: int): (c: char)
    requires 0 <= n <= 9
    ensures IsAsciiDigit(c) && DigitValue(c) == n
  {
    ('0' as int + n) as char
  }

  predicate NoSpace(s: string)
  {
    forall i :: 0 <= i < |s| ==> !IsSpace(s[i])
  }

  /** `s.lstrip()` */
  function LStrip(s: string): (r: string)
    ensures |r| <= |s| && r == s[|s| - |r|..]
    ensures r == [] || !IsSpace(r[0])
  {
    if |s| > 0 && IsSpace(s[0]) then LStrip(s[1..]) else s
  }

  /** `lstrip` removes only whitespace. */
  lemma {:induction false} LStripSpaces(s: string)
    ensures forall i :: 0 <= i < |s| - |LStrip(s)| ==> IsSpace(s[i])
  {
    if |s| > 0 && IsSpace(s[0]) {
      LStripSpaces(s[1..]);
      forall i | 1 <= i < |s| - |LStrip(s)| ensures IsSpace(s[i]) {
        assert s[i] == s[1..][i - 1];
      }
    }
  }

  /** `s.rstrip()` */
  function RStrip(s: string): (r: string)
    ensures |r| <= |s| && r == s[..|r|]
    ensures r == [] || !IsSpace(r[|r| - 1])
  {
    if |s| > 0 && IsSpace(s[|s| - 1]) then RStrip(s[..|s| - 1]) else s
  }

  /** `rstrip` removes only whitespace. */
  lemma {:induction false} RStripSpaces(s: string)
    ensures forall i :: |RStrip(s)| <= i < |s| ==> IsSpace(s[i])
  {
    if |s| > 0 && IsSpace(s[|s| - 1]) {
      RStripSpaces(s[..|s| - 1]);
      forall i | |RStrip(s)| <= i < |s| - 1 ensures IsSpace(s[i]) {
        assert s[i] == s[..|s| - 1][i];
      }
    }
  }

  /** One trailing space falls to `rstrip`. */
  lemma RStripTrailingSpace(s: string)
    requires s != [] && !IsSpace(s[|s| - 1])
    ensures RStrip(s + " ") == s
  {
    assert (s + " ")[..|s|] == s;
  }

  /** `s.strip()` */
  function Strip(s: string): string
  {
    RStrip(LStrip(s))
  }

  /** What `strip` keeps: the slice of `s` from its first to its last non-space character,
      with only whitespace cut off on either side. */
  lemma StripShape(s: string)
    ensures var r, k := Strip(s), |s| - |LStrip(s)|;
      && (r == [] || (!IsSpace(r[0]) && !IsSpace(r[|r| - 1])))
      && k + |r| <= |s| && r == s[k..k + |r|]
      && (forall i :: 0 <= i < k ==> IsSpace(s[i]))
      && (forall i :: k + |r| <= i < |s| ==> IsSpace(s[i]))
  {
    StripEdges(s);
    StripSlice(s);
    LStripSpaces(s);
    StripTail(s);
  }

  lemma StripEdges(s: string)
    ensures var r := Strip(s); r == [] || (!IsSpace(r[0]) && !IsSpace(r[|r| - 1]))
  {
    var l := LStrip(s);
    var r := RStrip(l);
    assert r != [] ==> r[0] == l[0];
  }

  lemma StripSlice(s: string)
    ensures var r, k := Strip(s), |s| - |LStrip(s)|; k + |r| <= |s| && r == s[k..k + |r|]
  {
    var l := LStrip(s);
    var r := RStrip(l);
    var k := |s| - |l|;
    SliceOfSuffix(s, k, |r|);
  }

  lemma SliceOfSuffix<T>(s: seq<T>, k: nat, n: nat)
    requires k + n <= |s|
    ensures s[k..][..n] == s[k..k + n]
  {
  }

  lemma StripTail(s: string)
    ensures var r, k := Strip(s), |s| - |LStrip(s)|; forall i :: k + |r| <= i < |s| ==> IsSpace(s[i])
  {
    var l := LStrip(s);
    var r := RStrip(l);
    var k := |s| - |l|;
    RStripSpaces(l);
    forall i | k + |r| <= i < |s| ensures IsSpace(s[i]) {
      assert s[i] == l[i - k];
    }
  }

  /** A string that starts and ends with a non-space character is its own strip. */
  lemma StripNoEdges(s: string)
    requires s == [] || (!IsSpace(s[0]) && !IsSpace(s[|s| - 1]))
    ensures Strip(s) == s
  {
  }

  /** Stripping is idempotent. */
  lemma StripIdempotent(s: string)
    ensures Strip(Strip(s)) == Strip(s)
  {
    StripShape(s);
    StripNoEdges(Strip(s));
  }

  lemma Associative<T>(a: seq<T>, b: seq<T>, c: seq<T>)
    ensures a + b + c == a + (b + c)
  {
  }

  /** `s.startswith(p)` */
  predicate StartsWith(s: string, p: string)
  {
    |p| <= |s| && s[..|p|] == p
  }

  /** `p in s` */
  predicate Contains(s: string, p: string)
    decreases |s|
  {
    StartsWith(s, p) || (|s| > 0 && Contains(s[1..], p))
  }

  lemma ContainsAt(s: string, p: string, k: nat)
    requires k + |p| <= |s| && s[k..k + |p|] == p
    ensures Contains(s, p)
    decreases k
  {
    if k > 0 {
      assert s[1..][k - 1..k - 1 + |p|] == p;
      ContainsAt(s[1..], p, k - 1);
    }
  }

  /** `s.find(c)`: the first index holding `c`, if any. */
  function IndexOf(s: string, c: char): (r: Option<nat>)
    ensures r.Some? ==> r.value < |s| && s[r.value] == c && forall i :: 0 <= i < r.value ==> s[i] != c
    ensures r.None? ==> forall i :: 0 <= i < |s| ==> s[i] != c
  {
    if s == [] then None
    else if s[0] == c then Some(0)
    else match IndexOf(s[1..], c)
      case None => None
      case Some(k) => Some(k + 1)
  }

  /** `s.replace(p, '')` for a non-empty `p`: occurrences removed left to right, without overlap. */
  function RemoveAll(s: string, p: string): (r: string)
    requires |p| > 0
    ensures |r| <= |s|
    decreases |s|
  {
    if StartsWith(s, p) then RemoveAll(s[|p|..], p)
    else if s == [] then []
    else [s[0]] + RemoveAll(s[1..], p)
  }

  /** `replace` only removes characters: a string without whitespace stays without it. */
  lemma RemoveAllNoSpace(s: string, p: string)
    requires |p| > 0 && NoSpace(s)
    ensures NoSpace(RemoveAll(s, p))
    decreases |s|
  {
    if StartsWith(s, p) {
      RemoveAllNoSpace(s[|p|..], p);
    } else if s != [] {
      RemoveAllNoSpace(s[1..], p);
    }
  }

  /** A string that never contains `p` is left alone by `replace(p, '')`. */
  lemma {:induction false} RemoveAllAbsent(s: string, p: string)
    requires |p| > 0 && !Contains(s, p)
    ensures RemoveAll(s, p) == s
    decreases |s|
  {
    if s != [] {
      RemoveAllAbsent(s[1..], p);
    }
  }

  /** Removing a trailing `p` from `s + p`, when `s` cannot touch an occurrence. */
  lemma {:induction false} RemoveAllSuffix(s: string, p: string)
    requires |p| > 0 && p[0] !in s
    ensures RemoveAll(s + p, p) == s
    decreases |s|
  {
    if s == [] {
      assert StartsWith(p, p);
      assert p[|p|..] == [];
    } else {
      assert !StartsWith(s + p, p) by { assert (s + p)[0] == s[0]; }
      assert (s + p)[1..] == s[1..] + p;
      RemoveAllSuffix(s[1..], p);
    }
  }

  /** The length of the leading run of non-space characters. */
  function TokenLen(s: string): (n: nat)
    ensures n <= |s| && NoSpace(s[..n]) && (n == |s| || IsSpace(s[n]))
  {
    if s == [] || IsSpace(s[0]) then 0 else 1 + TokenLen(s[1..])
  }

  /** Words as `split` returns them: non-empty and without whitespace. */
  predicate Tokens(ws: seq<string>)
  {
    forall i :: 0 <= i < |ws| ==> ws[i] != [] && NoSpace(ws[i])
  }

  /** `s.split()` with no separator: the maximal runs of non-space characters. */
  function Words(s: string): seq<string>
    decreases |s|
  {
    var t := LStrip(s);
    if t == [] then []
    else
      var n := TokenLen(t);
      [t[..n]] + Words(t[n..])
  }

  /** Every word `split` returns is non-empty and free of whitespace. */
  lemma {:induction false} WordsTokens(s: string)
    ensures Tokens(Words(s))
    decreases |s|
  {
    var t := LStrip(s);
    if t != [] {
      var n := TokenLen(t);
      assert n >= 1;
      WordsTokens(t[n..]);
      var rest := Words(t[n..]);
      var ws := [t[..n]] + rest;
      assert Words(s) == ws;
      forall i | 0 <= i < |ws| ensures ws[i] != [] && NoSpace(ws[i]) {
        if i > 0 {
          assert ws[i] == rest[i - 1];
        }
      }
    }
  }

  /** `sep.join(ws)` */
  function Join(ws: seq<string>, sep: string): string
  {
    if ws == [] then ""
    else if |ws| == 1 then ws[0]
    else ws[0] + sep + Join(ws[1..], sep)
  }

  /** `split()` takes apart what a single-space `join` put together. */
  lemma {:induction false} WordsOfJoin(ws: seq<string>)
    requires Tokens(ws)
    ensures Words(Join(ws, " ")) == ws
  {
    if ws == [] {
    } else if |ws| == 1 {
      WordsOfWord(ws[0]);
    } else {
      assert forall i :: 0 <= i < |ws[1..]| ==> ws[1..][i] == ws[i + 1];
      WordsOfJoin(ws[1..]);
      WordsCons(ws[0], Join(ws[1..], " "));
    }
  }

  lemma WordsOfWord(s: string)
    requires s != [] && NoSpace(s)
    ensures Words(s) == [s]
  {
    assert !IsSpace(s[0]);
    assert LStrip(s) == s;
    assert TokenLen(s) == |s| by { TokenLenNoSpace(s, ""); assert s + "" == s; }
    assert s[..|s|] == s;
    assert s[|s|..] == [];
  }

  lemma WordsCons(w: string, rest: string)
    requires w != [] && NoSpace(w)
    ensures Words(w + " " + rest) == [w] + Words(rest)
  {
    var s := w + " " + rest;
    assert !IsSpace(s[0]) by { assert s[0] == w[0]; }
    assert LStrip(s) == s;
    TokenLenNoSpace(w, " " + rest);
    assert s == w + (" " + rest);
    assert s[..|w|] == w;
    assert s[|w|..] == " " + rest;
    WordsSkipSpace(rest);
  }

  lemma TokenLenNoSpace(w: string, t: string)
    requires NoSpace(w) && (t == [] || IsSpace(t[0]))
    ensures TokenLen(w + t) == |w|
    decreases |w|
  {
    if w != [] {
      assert (w + t)[1..] == w[1..] + t;
      TokenLenNoSpace(w[1..], t);
    } else {
      assert w + t == t;
    }
  }

  lemma WordsSkipSpace(rest: string)
    ensures Words(" " + rest) == Words(rest)
  {
    assert (" " + rest)[1..] == rest;
    assert LStrip(" " + rest) == LStrip(rest);
  }
}

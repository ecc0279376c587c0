/** `_parse_captured_list` (gui.py:105-123): a capture summary such as `玩家吃子: 车 炮 马(暗)`
    becomes a list of `(name, is_dark)` pairs. The text is freed of ANSI sequences and stripped;
    everything after the first colon is split at whitespace, and each token loses every `(暗)`
    marker, remembering whether it had one. Tokens whose name comes out empty are dropped. */
module Captures {
  import opened Text
  import opened Ansi

  /** One captured piece as the front end lists it. */
  datatype Captured = Captured(name: string, isDark: bool)

  /** The marker the engine appends to a piece that was captured while still face down. */
  const DarkMark: string := "(暗)"

  /** What one token contributes: its name without the markers, and whether it carried one. */
  function TokenItem(tok: string): Captured
  {
    Captured(Strip(RemoveAll(tok, DarkMark)), Contains(tok, DarkMark))
  }

  /** The items the loop appends for the tokens `toks`, in order. */
  function ItemsOf(toks: seq<string>): (items: seq<Captured>)
    ensures |items| <= |toks|
  {
    if toks == [] then []
    else (if TokenItem(toks[0]).name != [] then [TokenItem(toks[0])] else []) + ItemsOf(toks[1..])
  }

  /** The stripped text after the first colon, or `None` when there is no colon. */
  function AfterColon(s: string): (r: Option<string>)
    ensures r.None? <==> forall i :: 0 <= i < |s| ==> s[i] != ':'
  {
    match IndexOf(s, ':')
    case None => None
    case Some(k) => Some(Strip(s[k + 1..]))
  }

  /** The list `_parse_captured_list` returns for `line`. */
  function CapturedList(line: string): (items: seq<Captured>)
  {
    ItemsOfText(Strip(StripAnsi(line)))
  }

  /** The items listed by the escape-free, stripped text `s`. */
  function ItemsOfText(s: string): (items: seq<Captured>)
  {
    match AfterColon(s)
    case None => []
    case Some(rhs) => if rhs == [] then [] else ItemsOf(Words(rhs))
  }

  /** The parser itself. */
  method ParseCapturedList(line: string) returns (items: seq<Captured>)
    ensures items == CapturedList(line)
  {
    var s := Strip(StripAnsi(line));
    items := ParseStripped(s);
  }

  /** The part of the parser after the escape removal and the strip. */
  method ParseStripped(s: string) returns (items: seq<Captured>)
    ensures items == ItemsOfText(s)
  {
    var colon := IndexOf(s, ':');
    if colon.None? {
      ItemsOfTextNone(s);
      items := [];
    } else {
      items := ParseAfterColon(s, colon.value);
    }
  }

  /** The tokens after the first colon, at `k`. */
  method ParseAfterColon(s: string, k: nat) returns (items: seq<Captured>)
    requires IndexOf(s, ':') == Some(k) && k < |s|
    ensures items == ItemsOfText(s)
  {
    var rhs := Strip(s[k + 1..]);
    ItemsOfTextSome(s, k, rhs);
    if rhs == [] {
      items := [];
    } else {
      items := ScanTokens(Words(rhs));
    }
  }

  lemma ItemsOfTextNone(s: string)
    requires IndexOf(s, ':').None?
    ensures ItemsOfText(s) == []
  {
  }

  lemma ItemsOfTextSome(s: string, k: nat, rhs: string)
    requires IndexOf(s, ':') == Some(k) && k < |s| && rhs == Strip(s[k + 1..])
    ensures ItemsOfText(s) == if rhs == [] then [] else ItemsOf(Words(rhs))
  {
  }

  /** The loop over the tokens of the text after the colon. */
  method ScanTokens(toks: seq<string>) returns (items: seq<Captured>)
    ensures items == ItemsOf(toks)
  {
    items := [];
    var i := 0;
    while i < |toks|
      invariant 0 <= i <= |toks|
      invariant items + ItemsOf(toks[i..]) == ItemsOf(toks)
    {
      var isDark := Contains(toks[i], DarkMark);
      var name := Strip(RemoveAll(toks[i], DarkMark));
      var emitted: seq<Captured> := if name != [] then [Captured(name, isDark)] else [];
      ItemsOfStep(toks, i);
      Associative(items, emitted, ItemsOf(toks[i + 1..]));
      items := items + emitted;
      i := i + 1;
    }
    assert toks[i..] == [];
  }

  lemma ItemsOfStep(toks: seq<string>, i: nat)
    requires i < |toks|
    ensures var item := TokenItem(toks[i]);
      ItemsOf(toks[i..]) == (if item.name != [] then [item] else []) + ItemsOf(toks[i + 1..])
  {
    assert toks[i..][0] == toks[i];
    assert toks[i..][1..] == toks[i + 1..];
  }

  /** A line whose text has no colon lists nothing. */
  lemma NoColonNoItems(line: string)
    requires forall i :: 0 <= i < |Strip(StripAnsi(line))| ==> Strip(StripAnsi(line))[i] != ':'
    ensures CapturedList(line) == []
  {
  }

  /** Every listed name is non-empty and free of whitespace. */
  lemma {:induction false} ItemsOfNames(toks: seq<string>)
    requires forall i :: 0 <= i < |toks| ==> NoSpace(toks[i])
    ensures forall i :: 0 <= i < |ItemsOf(toks)| ==> ItemsOf(toks)[i].name != [] && NoSpace(ItemsOf(toks)[i].name)
  {
    if toks != [] {
      var tok := toks[0];
      RemoveAllNoSpace(tok, DarkMark);
      StripNoSpace(RemoveAll(tok, DarkMark));
      ItemsOfNames(toks[1..]);
      var head: seq<Captured> := if TokenItem(tok).name != [] then [TokenItem(tok)] else [];
      var rest := ItemsOf(toks[1..]);
      assert ItemsOf(toks) == head + rest;
      forall i | 0 <= i < |head + rest| ensures (head + rest)[i].name != [] && NoSpace((head + rest)[i].name) {
        if i >= |head| {
          assert (head + rest)[i] == rest[i - |head|];
        }
      }
    }
  }

  /** A string without whitespace is its own strip. */
  lemma StripNoSpace(s: string)
    requires NoSpace(s)
    ensures Strip(s) == s
  {
    StripNoEdges(s);
  }

  /** The names `_parse_captured_list` returns are never empty and never contain whitespace. */
  lemma CapturedNames(line: string)
    ensures var items := CapturedList(line);
      forall i :: 0 <= i < |items| ==> items[i].name != [] && NoSpace(items[i].name)
  {
    var s := Strip(StripAnsi(line));
    var r := AfterColon(s);
    if r.Some? && r.value != [] {
      WordsTokens(r.value);
      ItemsOfNames(Words(r.value));
    }
  }

  /** How the engine writes one captured piece: its name, followed by the marker if it was dark. */
  function PrintItem(c: Captured): string
  {
    c.name + (if c.isDark then DarkMark else "")
  }

  function PrintItems(items: seq<Captured>): (toks: seq<string>)
    ensures |toks| == |items|
    ensures forall i :: 0 <= i < |items| ==> toks[i] == PrintItem(items[i])
  {
    if items == [] then [] else [PrintItem(items[0])] + PrintItems(items[1..])
  }

  /** Names the engine can print and the parser reads back: non-empty, no whitespace, no escape,
      and no `(`, so that no marker can start inside the name. */
  predicate Listable(items: seq<Captured>)
  {
    forall i :: 0 <= i < |items| ==>
      && items[i].name != [] && NoSpace(items[i].name) && NoEsc(items[i].name)
      && '(' !in items[i].name
  }

  /** A printed token reads back as the item it was printed from. */
  lemma TokenItemOfPrint(c: Captured)
    requires c.name != [] && NoSpace(c.name) && '(' !in c.name
    ensures TokenItem(PrintItem(c)) == c
  {
    StripNoSpace(c.name);
    if c.isDark {
      RemoveAllSuffix(c.name, DarkMark);
      ContainsAt(c.name + DarkMark, DarkMark, |c.name|);
    } else {
      assert PrintItem(c) == c.name;
      NotContainsHead(c.name, DarkMark);
      RemoveAllAbsent(c.name, DarkMark);
    }
  }

  /** A string that lacks the first character of `p` does not contain `p`. */
  lemma {:induction false} NotContainsHead(s: string, p: string)
    requires |p| > 0 && p[0] !in s
    ensures !Contains(s, p)
    decreases |s|
  {
    assert !StartsWith(s, p) by {
      if |p| <= |s| { assert s[..|p|][0] == s[0]; }
    }
    if s != [] {
      assert forall c :: c in s[1..] ==> c in s;
      NotContainsHead(s[1..], p);
    }
  }

  /** The loop reads back every list of printed tokens. */
  lemma {:induction false} ItemsOfPrint(items: seq<Captured>)
    requires Listable(items)
    ensures ItemsOf(PrintItems(items)) == items
  {
    if items != [] {
      assert Listable(items[1..]) by {
        forall i | 0 <= i < |items[1..]| ensures items[1..][i] == items[i + 1] { }
      }
      TokenItemOfPrint(items[0]);
      ItemsOfPrint(items[1..]);
      assert PrintItems(items)[1..] == PrintItems(items[1..]);
      assert items == [items[0]] + items[1..];
    }
  }

  /** A printed token is non-empty and holds neither whitespace nor an escape. */
  lemma PrintItemToken(c: Captured)
    requires c.name != [] && NoSpace(c.name) && NoEsc(c.name)
    ensures var w := PrintItem(c); w != [] && NoSpace(w) && NoEsc(w)
  {
    var w := PrintItem(c);
    forall j | 0 <= j < |w| ensures !IsSpace(w[j]) && w[j] != Esc {
      if j < |c.name| {
        assert w[j] == c.name[j];
      } else {
        assert w[j] == DarkMark[j - |c.name|];
      }
    }
  }

  /** Printed tokens are what `split` and `join` agree on: non-empty, without whitespace, and
      without escapes. */
  lemma PrintItemsTokens(items: seq<Captured>)
    requires Listable(items)
    ensures Tokens(PrintItems(items))
    ensures forall i :: 0 <= i < |PrintItems(items)| ==> NoEsc(PrintItems(items)[i])
  {
    var toks := PrintItems(items);
    forall i | 0 <= i < |toks| ensures toks[i] != [] && NoSpace(toks[i]) && NoEsc(toks[i]) {
      PrintItemToken(items[i]);
    }
  }

  /** The joined tokens carry no escape character. */
  lemma {:induction false} JoinNoEsc(ws: seq<string>)
    requires forall i :: 0 <= i < |ws| ==> NoEsc(ws[i])
    ensures NoEsc(Join(ws, " "))
  {
    if |ws| > 1 {
      JoinNoEsc(ws[1..]);
      var t := Join(ws[1..], " ");
      assert Join(ws, " ") == ws[0] + " " + t;
      forall i | 0 <= i < |ws[0] + " " + t| ensures (ws[0] + " " + t)[i] != Esc {
        if i < |ws[0]| {
          assert (ws[0] + " " + t)[i] == ws[0][i];
        } else if i > |ws[0]| {
          assert (ws[0] + " " + t)[i] == t[i - |ws[0]| - 1];
        }
      }
    }
  }

  /** Joined non-empty words start with the first word's first character and end with the last
      word's last character. */
  lemma {:induction false} JoinEdges(ws: seq<string>)
    requires ws != [] && forall i :: 0 <= i < |ws| ==> ws[i] != []
    ensures var j := Join(ws, " ");
      j != [] && j[0] == ws[0][0] && j[|j| - 1] == ws[|ws| - 1][|ws[|ws| - 1]| - 1]
  {
    if |ws| > 1 {
      JoinEdges(ws[1..]);
      var t := Join(ws[1..], " ");
      assert Join(ws, " ") == ws[0] + " " + t;
      assert (ws[0] + " " + t)[|ws[0] + " " + t| - 1] == t[|t| - 1];
    }
  }

  /** The round trip: a summary line the engine prints for `items`, under a title without
      colons, parses back to exactly `items`. */
  lemma CapturedListOfPrinted(title: string, items: seq<Captured>)
    requires title != [] && NoSpace(title) && NoEsc(title) && ':' !in title
    requires Listable(items)
    ensures CapturedList(title + ": " + Join(PrintItems(items), " ")) == items
  {
    var toks := PrintItems(items);
    var j := Join(toks, " ");
    var line := title + ": " + j;
    PrintItemsTokens(items);
    JoinNoEsc(toks);
    PrintedLineNoEsc(title, j, line);
    if items == [] {
      assert j == "";
      EmptySummary(title, line);
      CapturedListVia(line, []);
    } else {
      JoinEdges(toks);
      SummaryRest(title, j, line);
      CapturedListVia(line, j);
      WordsOfJoin(toks);
      ItemsOfPrint(items);
    }
  }

  /** `CapturedList` once the escape removal and the colon split are known. */
  lemma CapturedListVia(line: string, rhs: string)
    requires StripAnsi(line) == line && AfterColon(Strip(line)) == Some(rhs)
    ensures CapturedList(line) == if rhs == [] then [] else ItemsOf(Words(rhs))
  {
  }

  lemma PrintedLineNoEsc(title: string, j: string, line: string)
    requires NoEsc(title) && NoEsc(j) && line == title + ": " + j
    ensures StripAnsi(line) == line
  {
    forall i | 0 <= i < |line| ensures line[i] != Esc {
      if i < |title| {
        assert line[i] == title[i];
      } else if i >= |title| + 2 {
        assert line[i] == j[i - |title| - 2];
      }
    }
    StripAnsiNoEsc(line);
  }

  /** `title: ` with nothing after the colon lists nothing. */
  lemma EmptySummary(title: string, line: string)
    requires title != [] && NoSpace(title) && ':' !in title
    requires line == title + ": " + ""
    ensures AfterColon(Strip(line)) == Some([])
  {
    var s := title + ":";
    assert line == s + " ";
    StripTrailingSpace(s, line);
    ColonAt(title, "", s);
    assert s[|title| + 1..] == [];
  }

  lemma StripTrailingSpace(s: string, line: string)
    requires s != [] && !IsSpace(s[0]) && !IsSpace(s[|s| - 1]) && line == s + " "
    ensures Strip(line) == s
  {
    assert line[0] == s[0];
    assert LStrip(line) == line;
    RStripTrailingSpace(s);
  }

  /** What follows the colon of `title: <j>` is `j`. */
  lemma SummaryRest(title: string, j: string, line: string)
    requires title != [] && NoSpace(title) && ':' !in title
    requires j != [] && !IsSpace(j[0]) && !IsSpace(j[|j| - 1])
    requires line == title + ": " + j
    ensures AfterColon(Strip(line)) == Some(j)
  {
    assert line[0] == title[0];
    assert line[|line| - 1] == j[|j| - 1];
    StripNoEdges(line);
    ColonAt(title, " " + j, line);
    assert line[|title| + 1..] == " " + j;
    SpaceThenText(j);
  }

  lemma SpaceThenText(j: string)
    requires j != [] && !IsSpace(j[0]) && !IsSpace(j[|j| - 1])
    ensures Strip(" " + j) == j
  {
    assert (" " + j)[1..] == j;
    assert LStrip(" " + j) == LStrip(j);
    StripNoEdges(j);
  }

  /** The first colon of `title:<t>` is the one after the title. */
  lemma ColonAt(title: string, t: string, s: string)
    requires ':' !in title && s == title + ":" + t
    ensures IndexOf(s, ':') == Some(|title|)
  {
    assert s[|title|] == ':';
    forall i | 0 <= i < |title| ensures s[i] != ':' {
      assert s[i] == title[i];
    }
  }

  /** Scenario: the player's capture summary `玩家吃子: 车 炮 马(暗)`. */
  lemma PlayerSummaryScenario(line: string)
    requires line == "玩家吃子: 车 炮 马(暗)"
    ensures CapturedList(line) == [Captured("车", false), Captured("炮", false), Captured("马", true)]
  {
    var items := [Captured("车", false), Captured("炮", false), Captured("马", true)];
    ScenarioItems(items);
    ScenarioLine(line, items);
    CapturedListOfPrinted("玩家吃子", items);
  }

  lemma ScenarioItems(items: seq<Captured>)
    requires items == [Captured("车", false), Captured("炮", false), Captured("马", true)]
    ensures Listable(items)
    ensures Join(PrintItems(items), " ") == "车 炮 马(暗)"
  {
    var toks := PrintItems(items);
    assert toks[0] == "车" && toks[1] == "炮";
    assert toks[2] == "马" + DarkMark;
    assert toks[1..][1..] == toks[2..] && |toks[2..]| == 1;
    assert Join(toks[2..], " ") == toks[2];
    assert Join(toks[1..], " ") == toks[1] + " " + toks[2];
    assert Join(toks, " ") == toks[0] + " " + (toks[1] + " " + toks[2]);
  }

  lemma ScenarioTitle(title: string)
    requires title == "玩家吃子"
    ensures title != [] && NoSpace(title) && NoEsc(title) && ':' !in title
  {
  }

  lemma ScenarioLine(line: string, items: seq<Captured>)
    requires line == "玩家吃子: 车 炮 马(暗)"
    requires Join(PrintItems(items), " ") == "车 炮 马(暗)"
    ensures line == "玩家吃子" + ": " + Join(PrintItems(items), " ")
    ensures "玩家吃子" != [] && NoSpace("玩家吃子") && NoEsc("玩家吃子") && ':' !in "玩家吃子"
  {
    ScenarioTitle("玩家吃子");
  }

  /** A token that is only the marker has an empty name, and is dropped. */
  lemma MarkOnlyDropped()
    ensures TokenItem(DarkMark).name == [] && ItemsOf([DarkMark]) == []
  {
    assert StartsWith(DarkMark, DarkMark);
    assert DarkMark[|DarkMark|..] == [];
  }
}

/**
 * Adding a provider to the adapter catalogue's source text and reading the text again (scripts/new-adapter.ts:
 * `closing`, `catalogueBlocks`, `providerOf` and `catalogueEdit`).
 */
module CatalogueEdit {
  import opened TextSplit
  import opened Wrappers

  // -------------------------------------------------------------------------------------------------------------
  // Braces
  // -------------------------------------------------------------------------------------------------------------

  function Plus(at: Option<nat>, n: nat): Option<nat> { if at.None? then None else Some(at.value + n) }

  /** Where the brace closes that leaves `depth` open braces none. */
  function ClosingIn(s: string, depth: nat): Option<nat>
    requires depth > 0
  {
    if s == [] then None
    else if s[0] == '{' then Plus(ClosingIn(s[1..], depth + 1), 1)
    else if s[0] == '}' then if depth == 1 then Some(0) else Plus(ClosingIn(s[1..], depth - 1), 1)
    else Plus(ClosingIn(s[1..], depth), 1)
  }

  /** Where the brace opened at `open` is closed again; none when it never is. */
  function ClosingAt(text: string, open: nat): Option<nat>
    requires open < |text|
  {
    Plus(ClosingIn(text[open + 1..], 1), open + 1)
  }

  method Closing(text: string, open: nat) returns (close: Option<nat>)
    requires open < |text| && text[open] == '{'
    ensures close == ClosingAt(text, open)
  {
    var depth := 0;
    var i := open;
    while i < |text|
      invariant open <= i <= |text|
      invariant i == open ==> depth == 0
      invariant i > open ==> depth > 0 && ClosingAt(text, open) == Plus(ClosingIn(text[i..], depth), i)
    {
      assert text[i..][1..] == text[i + 1..];
      if text[i] == '{' {
        depth := depth + 1;
      }
      if text[i] == '}' {
        depth := depth - 1;
        if depth == 0 {
          return Some(i);
        }
      }
      i := i + 1;
    }
    close := None;
  }

  /** The depth after a text that starts at `depth` and never closes more than was opened in it or before. */
  function Level(s: string, depth: nat): Option<nat> {
    if s == [] then Some(depth)
    else if s[0] == '{' then Level(s[1..], depth + 1)
    else if s[0] == '}' then if depth == 0 then None else Level(s[1..], depth - 1)
    else Level(s[1..], depth)
  }

  lemma {:induction false} LevelOfSum(a: string, b: string, depth: nat)
    ensures Level(a + b, depth) == if Level(a, depth).None? then None else Level(b, Level(a, depth).value)
    decreases |a|
  {
    if a == [] {
      assert a + b == b;
    } else {
      assert (a + b)[1..] == a[1..] + b;
      LevelOfSum(a[1..], b, if a[0] == '{' then depth + 1 else if a[0] == '}' && depth > 0 then depth - 1 else depth);
    }
  }

  /** A closing brace is looked for past a text that closes nothing opened before it. */
  lemma {:induction false} ClosingPast(a: string, b: string, depth: nat)
    requires Level(a, depth).Some?
    ensures ClosingIn(a + b, 1 + depth) == Plus(ClosingIn(b, 1 + Level(a, depth).value), |a|)
    decreases |a|
  {
    if a == [] {
      assert a + b == b;
    } else {
      assert (a + b)[1..] == a[1..] + b;
      ClosingPast(a[1..], b, if a[0] == '{' then depth + 1 else if a[0] == '}' then depth - 1 else depth);
    }
  }

  /** What lies before the closing brace closes nothing opened before it, and leaves nothing open. */
  lemma {:induction false} ClosedIsLevel(s: string, depth: nat)
    requires ClosingIn(s, 1 + depth).Some?
    ensures var n := ClosingIn(s, 1 + depth).value; n < |s| && s[n] == '}' && Level(s[..n], depth) == Some(0)
    decreases |s|
  {
    var n := ClosingIn(s, 1 + depth).value;
    if s[0] == '}' && depth == 0 {
    } else {
      var inner := if s[0] == '{' then depth + 1 else if s[0] == '}' then depth - 1 else depth;
      ClosedIsLevel(s[1..], inner);
      assert s[..n][1..] == s[1..][..n - 1];
    }
  }

  /** Before the closing brace no first part closes too much. */
  lemma {:induction false} NotYetClosed(s: string, depth: nat, k: nat)
    requires ClosingIn(s, 1 + depth).Some? && k <= ClosingIn(s, 1 + depth).value && k <= |s|
    ensures Level(s[..k], depth).Some?
    decreases |s|
  {
    if k > 0 {
      var inner := if s[0] == '{' then depth + 1 else if s[0] == '}' then depth - 1 else depth;
      NotYetClosed(s[1..], inner, k - 1);
      assert s[..k][1..] == s[1..][..k - 1];
    }
  }

  // -------------------------------------------------------------------------------------------------------------
  // Items
  // -------------------------------------------------------------------------------------------------------------

  /** White space, as `trim` and `\s` take it. */
  predicate IsBlank(c: char) {
    || c in {' ', '\t', '\n', '\r', '\U{000B}', '\U{000C}', '\U{00A0}', '\U{1680}', '\U{2028}', '\U{2029}', '\U{202F}',
             '\U{205F}', '\U{3000}', '\U{FEFF}'}
    || '\U{2000}' <= c <= '\U{200A}'
  }

  predicate Blank(s: string) { forall i :: 0 <= i < |s| ==> IsBlank(s[i]) }

  function TrimStart(s: string): (t: string)
    ensures t == [] || !IsBlank(t[0])
  {
    if s != [] && IsBlank(s[0]) then TrimStart(s[1..]) else s
  }

  function TrimEnd(s: string): (t: string)
    ensures t <= s && (t == [] || !IsBlank(t[|t| - 1]))
  {
    if s != [] && IsBlank(s[|s| - 1]) then TrimEnd(s[..|s| - 1]) else s
  }

  function Trim(s: string): string { TrimEnd(TrimStart(s)) }

  /** What a slot's inside holds: its pieces between commas outside any brace, trimmed, the last only if not blank. */
  function ItemsFrom(s: string, item: string, depth: int): seq<string> {
    if s == [] then if Trim(item) != "" then [Trim(item)] else []
    else
      var after := if s[0] == '{' then depth + 1 else if s[0] == '}' then depth - 1 else depth;
      if s[0] == ',' && after == 0 then [Trim(item)] + ItemsFrom(s[1..], "", after)
      else ItemsFrom(s[1..], item + [s[0]], after)
  }

  function ItemsOf(inside: string): seq<string> { ItemsFrom(inside, "", 0) }

  method ReadItems(inside: string) returns (items: seq<string>)
    ensures items == ItemsOf(inside)
  {
    items := [];
    var item := "";
    var depth := 0;
    assert inside[0..] == inside;
    for k := 0 to |inside|
      invariant items + ItemsFrom(inside[k..], item, depth) == ItemsOf(inside)
    {
      assert inside[k..][1..] == inside[k + 1..];
      var c := inside[k];
      if c == '{' {
        depth := depth + 1;
      }
      if c == '}' {
        depth := depth - 1;
      }
      if c == ',' && depth == 0 {
        assert items + ([Trim(item)] + ItemsFrom(inside[k + 1..], "", depth))
            == items + [Trim(item)] + ItemsFrom(inside[k + 1..], "", depth);
        items := items + [Trim(item)];
        item := "";
      } else {
        item := item + [c];
      }
    }
    if Trim(item) != "" {
      items := items + [Trim(item)];
    }
  }

  /** The depth after a text with no comma outside its braces, which close nothing opened before. */
  function Scan(s: string, depth: nat): Option<nat> {
    if s == [] then Some(depth)
    else if s[0] == '{' then Scan(s[1..], depth + 1)
    else if s[0] == '}' then if depth == 0 then None else Scan(s[1..], depth - 1)
    else if s[0] == ',' && depth == 0 then None
    else Scan(s[1..], depth)
  }

  lemma {:induction false} ScanOfSum(a: string, b: string, depth: nat)
    ensures Scan(a + b, depth) == if Scan(a, depth).None? then None else Scan(b, Scan(a, depth).value)
    decreases |a|
  {
    if a == [] {
      assert a + b == b;
    } else {
      assert (a + b)[1..] == a[1..] + b;
      ScanOfSum(a[1..], b, if a[0] == '{' then depth + 1 else if a[0] == '}' && depth > 0 then depth - 1 else depth);
    }
  }

  lemma {:induction false} ScanIsLevel(s: string, depth: nat)
    requires Scan(s, depth).Some?
    ensures Level(s, depth) == Scan(s, depth)
    decreases |s|
  {
    if s != [] {
      ScanIsLevel(s[1..], if s[0] == '{' then depth + 1 else if s[0] == '}' then depth - 1 else depth);
    }
  }

  lemma {:induction false} BlankScans(s: string, depth: nat)
    requires Blank(s)
    ensures Scan(s, depth) == Some(depth)
    decreases |s|
  {
    if s != [] {
      assert IsBlank(s[0]);
      BlankScans(s[1..], depth);
    }
  }

  /** Reading passes over a text with no comma outside its braces. */
  lemma {:induction false} ItemsPast(a: string, b: string, item: string, depth: nat)
    requires Scan(a, depth).Some?
    ensures ItemsFrom(a + b, item, depth) == ItemsFrom(b, item + a, Scan(a, depth).value)
    decreases |a|
  {
    if a == [] {
      assert a + b == b && item + a == item;
    } else {
      assert (a + b)[1..] == a[1..] + b;
      assert item + [a[0]] + a[1..] == item + a;
      ItemsPast(a[1..], b, item + [a[0]], if a[0] == '{' then depth + 1 else if a[0] == '}' then depth - 1 else depth);
    }
  }

  /** An item as it is read: trimmed, its braces balanced, no comma outside them. */
  predicate Clean(item: string) { Trim(item) == item && Scan(item, 0) == Some(0) }

  lemma BlankMore(c: char, s: string)
    requires Blank(s) && IsBlank(c)
    ensures Blank([c] + s) && Blank(s + [c])
  {
    hide IsBlank;
  }

  lemma {:induction false} TrimStartSplits(s: string) returns (front: string)
    ensures Blank(front) && s == front + TrimStart(s)
    decreases |s|
  {
    hide IsBlank;
    hide Blank;
    NothingIsBlank();
    if s != [] && IsBlank(s[0]) {
      front := TrimStartSplits(s[1..]);
      assert s == [s[0]] + s[1..];
      BlankMore(s[0], front);
      front := [s[0]] + front;
    } else {
      front := [];
    }
  }

  lemma {:induction false} TrimEndSplits(s: string) returns (back: string)
    ensures Blank(back) && s == TrimEnd(s) + back
    decreases |s|
  {
    hide IsBlank;
    hide Blank;
    NothingIsBlank();
    if s != [] && IsBlank(s[|s| - 1]) {
      back := TrimEndSplits(s[..|s| - 1]);
      assert s == s[..|s| - 1] + [s[|s| - 1]];
      BlankMore(s[|s| - 1], back);
      back := back + [s[|s| - 1]];
    } else {
      back := [];
    }
  }

  lemma NothingIsBlank()
    ensures Blank("")
  {}

  lemma {:induction false} TrimStartDrops(front: string, s: string)
    requires Blank(front)
    ensures TrimStart(front + s) == TrimStart(s)
    decreases |front|
  {
    hide IsBlank;
    if front == [] {
      assert front + s == s;
    } else {
      assert IsBlank(front[0]);
      assert (front + s)[1..] == front[1..] + s;
      TrimStartDrops(front[1..], s);
    }
  }

  lemma {:induction false} TrimEndDrops(s: string, back: string)
    requires Blank(back)
    ensures TrimEnd(s + back) == TrimEnd(s)
    decreases |back|
  {
    hide IsBlank;
    if back == [] {
      assert s + back == s;
    } else {
      assert IsBlank(back[|back| - 1]);
      assert (s + back)[..|s + back| - 1] == s + back[..|back| - 1];
      TrimEndDrops(s, back[..|back| - 1]);
    }
  }

  /** A trimmed text has no blank at either end, and trimming adds nothing to it. */
  lemma TrimmedEnds(s: string)
    ensures var t := Trim(s); Trim(t) == t && (t != "" ==> !IsBlank(t[0]) && !IsBlank(t[|t| - 1]))
  {
    var t := Trim(s);
    assert t <= TrimStart(s);
    assert t != "" ==> t[0] == TrimStart(s)[0];
    assert TrimStart(t) == t;
  }

  /** Blanks around a trimmed text that is not empty go. */
  lemma TrimUnwraps(front: string, item: string, back: string)
    requires Blank(front) && Blank(back) && Trim(item) == item
    ensures Trim(front + item + back) == item
  {
    TrimmedEnds(item);
    assert front + item + back == front + (item + back);
    TrimStartDrops(front, item + back);
    if item == "" {
      assert item + back == back;
      TrimStartDrops(back, "");
      assert back + "" == back;
    } else {
      assert TrimStart(item + back) == item + back;
      TrimEndDrops(item, back);
      assert TrimStart(item) == item;
    }
  }

  lemma TrimIsClean(s: string)
    requires Scan(s, 0) == Some(0)
    ensures Clean(Trim(s))
  {
    TrimmedEnds(s);
    var front := TrimStartSplits(s);
    var back := TrimEndSplits(TrimStart(s));
    assert s == front + (Trim(s) + back);
    ScanOfSum(front, Trim(s) + back, 0);
    BlankScans(front, 0);
    ScanOfSum(Trim(s), back, 0);
    if Scan(Trim(s), 0).Some? {
      BlankScans(back, Scan(Trim(s), 0).value);
    }
  }

  /** Everything read from the inside of a closed brace is clean. */
  lemma {:induction false} ItemsAreClean(s: string, item: string, depth: nat)
    requires Scan(item, 0) == Some(depth) && Level(s, depth) == Some(0)
    ensures forall it :: it in ItemsFrom(s, item, depth) ==> Clean(it)
    decreases |s|
  {
    if s == [] {
      TrimIsClean(item);
    } else {
      var after := if s[0] == '{' then depth + 1 else if s[0] == '}' then depth - 1 else depth;
      if s[0] == ',' && after == 0 {
        TrimIsClean(item);
        ItemsAreClean(s[1..], "", 0);
      } else {
        ScanOfSum(item, [s[0]], 0);
        ItemsAreClean(s[1..], item + [s[0]], after);
      }
    }
  }

  // -------------------------------------------------------------------------------------------------------------
  // The two ways a slot is written
  // -------------------------------------------------------------------------------------------------------------

  /** Between the braces, on one line. */
  function OneLineInside(items: seq<string>): string { " " + Join(items, ", ") + " " }

  function LinesOf(items: seq<string>, indent: string): seq<string> {
    if items == [] then [] else [indent + "  " + items[0] + ","] + LinesOf(items[1..], indent)
  }

  /** Between the braces, an item a line. */
  function MultiLineInside(items: seq<string>, indent: string): string {
    "\n" + Join(LinesOf(items, indent), "\n") + "\n" + indent
  }

  /** One item and a comma are read as that item, whatever blanks stand before it. */
  lemma ItemThenComma(front: string, item: string, rest: string)
    requires Blank(front) && Clean(item)
    ensures ItemsOf(front + item + "," + rest) == [item] + ItemsOf(rest)
    ensures Level(front + item + "," + rest, 0) == Level(rest, 0)
  {
    hide Trim;
    hide IsBlank;
    ScanOfSum(front, item, 0);
    BlankScans(front, 0);
    assert front + item + "," + rest == (front + item) + ("," + rest);
    ItemsPast(front + item, "," + rest, "", 0);
    assert "" + (front + item) == front + item && ("," + rest)[1..] == rest;
    TrimUnwraps(front, item, "");
    assert front + item + "" == front + item;
    ScanIsLevel(front + item, 0);
    LevelOfSum(front + item, "," + rest, 0);
  }

  /** A last item that is not empty is read without a comma. */
  lemma LastItem(front: string, item: string, back: string)
    requires Blank(front) && Blank(back) && Clean(item)
    ensures ItemsOf(front + item + back) == if item == "" then [] else [item]
    ensures Level(front + item + back, 0) == Some(0)
  {
    hide Trim;
    hide IsBlank;
    var whole := front + item + back;
    ScanOfSum(front, item, 0);
    ScanOfSum(front + item, back, 0);
    BlankScans(front, 0);
    BlankScans(back, 0);
    ItemsPast(whole, "", "", 0);
    assert whole + "" == whole && "" + whole == whole;
    TrimUnwraps(front, item, back);
    ScanIsLevel(whole, 0);
  }

  lemma NothingBetween(blank: string)
    requires Blank(blank)
    ensures ItemsOf(blank) == [] && Level(blank, 0) == Some(0)
  {
    LastItem(blank, "", "");
    assert blank + "" + "" == blank;
  }

  /** On one line a last item that is empty is lost, and nothing else. */
  lemma {:induction false} OneLineReads(items: seq<string>)
    requires items != [] && (forall it :: it in items ==> Clean(it))
    ensures ItemsOf(OneLineInside(items)) == if items[|items| - 1] == "" then items[..|items| - 1] else items
    ensures Level(OneLineInside(items), 0) == Some(0)
    decreases |items|
  {
    hide Clean;
    assert Blank(" ");
    if |items| == 1 {
      LastItem(" ", items[0], " ");
    } else {
      var rest := items[1..];
      OneLineReads(rest);
      ItemThenComma(" ", items[0], OneLineInside(rest));
      assert OneLineInside(items) == " " + items[0] + "," + OneLineInside(rest);
    }
  }

  lemma MultiLineUnfolds(items: seq<string>, indent: string)
    requires items != []
    ensures var front, rest := "\n" + indent + "  ", items[1..];
            MultiLineInside(items, indent)
            == front + items[0] + "," + if rest == [] then "\n" + indent else MultiLineInside(rest, indent)
  {
    hide Join;
    var lines, rest := LinesOf(items, indent), LinesOf(items[1..], indent);
    var line := indent + "  " + items[0] + ",";
    assert lines[0] == line && lines[1..] == rest;
    JoinUnfolds(lines, "\n");
    assert "\n" + line == "\n" + indent + "  " + items[0] + ",";
    if items[1..] == [] {
      LineThen(line, "\n" + indent);
    } else {
      LineThen(line, "\n" + Join(rest, "\n") + "\n" + indent);
      assert "\n" + (line + "\n" + Join(rest, "\n")) + "\n" + indent
          == "\n" + (line + ("\n" + Join(rest, "\n") + "\n" + indent));
    }
  }

  lemma LineThen(line: string, rest: string)
    ensures "\n" + (line + rest) == "\n" + line + rest
  {}

  lemma {:induction false} MultiLineReads(items: seq<string>, indent: string)
    requires items != [] && (forall it :: it in items ==> Clean(it)) && Blank(indent)
    ensures ItemsOf(MultiLineInside(items, indent)) == items && Level(MultiLineInside(items, indent), 0) == Some(0)
    decreases |items|
  {
    hide Clean;
    hide ItemsOf;
    hide Level;
    hide MultiLineInside;
    var front := "\n" + indent + "  ";
    assert Blank(front) && Blank("\n" + indent);
    MultiLineUnfolds(items, indent);
    if |items| == 1 {
      NothingBetween("\n" + indent);
      ItemThenComma(front, items[0], "\n" + indent);
    } else {
      MultiLineReads(items[1..], indent);
      ItemThenComma(front, items[0], MultiLineInside(items[1..], indent));
    }
  }

  // -------------------------------------------------------------------------------------------------------------
  // Slots
  // -------------------------------------------------------------------------------------------------------------

  /** A slot's entry as written: its name, its indent, the places of its braces and its items. */
  datatype Block = Block(name: string, indent: string, open: nat, close: nat, items: seq<string>)

  predicate IsLineEnd(c: char) { c in {'\n', '\r', '\U{2028}', '\U{2029}'} }

  predicate IsWord(c: char) { 'a' <= c <= 'z' || 'A' <= c <= 'Z' || '0' <= c <= '9' || c == '_' }

  function Spaces(s: string): (n: nat)
    ensures n <= |s| && forall i :: 0 <= i < n ==> s[i] == ' '
  {
    if s != [] && s[0] == ' ' then 1 + Spaces(s[1..]) else 0
  }

  function Words(s: string): (n: nat)
    ensures n <= |s| && forall i :: 0 <= i < n ==> IsWord(s[i])
  {
    if s != [] && IsWord(s[0]) then 1 + Words(s[1..]) else 0
  }

  /** The parts of a head `name: {` behind its indent. */
  datatype Head = Head(indent: nat, name: nat)

  /** `^( *)(\w+): \{` at the start of `s`. */
  function HeadIn(s: string): (h: Option<Head>)
    ensures h.Some? ==> h.value.indent + h.value.name + 2 < |s| && s[h.value.indent + h.value.name + 2] == '{'
  {
    HeadBy(s, Spaces(s), Words(s[Spaces(s)..]))
  }

  function HeadBy(s: string, indent: nat, name: nat): Option<Head> {
    var n := indent + name;
    if name > 0 && n + 2 < |s| && s[n] == ':' && s[n + 1] == ' ' && s[n + 2] == '{' then Some(Head(indent, name)) else None
  }

  /** The first head at the start of a line; `lineStart` says whether `s` starts one. */
  function NextHead(s: string, lineStart: bool): (p: Option<nat>)
    ensures p.Some? ==> p.value < |s| && HeadIn(s[p.value..]).Some?
  {
    if s == [] then None
    else if lineStart && HeadIn(s).Some? then Some(0)
    else
      var later := NextHead(s[1..], IsLineEnd(s[0]));
      assert later.Some? ==> s[1..][later.value..] == s[later.value + 1..];
      Plus(later, 1)
  }

  lemma ClosingIsBrace(s: string, open: nat)
    requires open < |s|
    ensures var close := ClosingAt(s, open);
            close.Some? ==> open < close.value < |s| && s[close.value] == '}' && Level(s[open + 1..close.value], 0) == Some(0)
  {
    if ClosingIn(s[open + 1..], 1).Some? {
      ClosedIsLevel(s[open + 1..], 0);
      var n := ClosingIn(s[open + 1..], 1).value;
      assert s[open + 1..][..n] == s[open + 1..open + 1 + n];
    }
  }

  /** The places of a head in the whole text: its start, its name and its brace. */
  datatype Place = Place(start: nat, name: nat, open: nat) {
    function Moved(by_: int): Place
      requires start + by_ >= 0 && name + by_ >= 0 && open + by_ >= 0
    {
      Place(start + by_, name + by_, open + by_)
    }
  }

  function PlaceOf(start: nat, h: Option<Head>): Option<Place> {
    if h.None? then None else Some(Place(start, start + h.value.indent, start + h.value.indent + h.value.name + 2))
  }

  /** The first head from `from` on. */
  function HeadFrom(text: string, from: nat, lineStart: bool): (m: Option<Place>)
    requires from <= |text|
    ensures m.Some? ==> from <= m.value.start <= m.value.name && m.value.name + 2 <= m.value.open < |text|
                        && text[m.value.open] == '{'
  {
    var p := NextHead(text[from..], lineStart);
    if p.None? then None
    else
      var start := from + p.value;
      SliceOfSlice(text, from, p.value);
      PlaceOf(start, HeadIn(text[start..]))
  }

  lemma SliceOfSlice(text: string, from: nat, n: nat)
    requires from + n <= |text|
    ensures text[from..][n..] == text[from + n..]
  {}

  function BlockAt(text: string, m: Place, close: nat): Block
    requires m.start <= m.name && m.name + 2 <= m.open < close <= |text|
  {
    Block(text[m.name..m.open - 2], text[m.start..m.name], m.open, close, ItemsOf(text[m.open + 1..close]))
  }

  /** The slots from `from` up to `end`; none when a brace does not close. */
  function BlocksFrom(text: string, from: nat, lineStart: bool, end: nat): Option<seq<Block>>
    requires from <= |text|
    decreases |text| - from
  {
    var m := HeadFrom(text, from, lineStart);
    if m.None? || m.value.start >= end then Some([])
    else
      var close := ClosingAt(text, m.value.open);
      if close.None? then None
      else
        ClosingIsBrace(text, m.value.open);
        var rest := BlocksFrom(text, close.value + 1, false, end);
        if rest.None? then None else Some([BlockAt(text, m.value, close.value)] + rest.value)
  }

  const DECLARATION := "export const ADAPTER_CATALOGUE"

  function IndexOf(s: string, find: string): Option<nat> {
    if find <= s then Some(0)
    else if s == [] then None
    else Plus(IndexOf(s[1..], find), 1)
  }

  lemma {:induction false} IndexFinds(s: string, find: string)
    ensures var n := IndexOf(s, find); n.Some? ==> n.value + |find| <= |s| && s[n.value..n.value + |find|] == find
    decreases |s|
  {
    if find <= s {
      assert s[0..|find|] == find;
    } else if s != [] {
      IndexFinds(s[1..], find);
      var n := IndexOf(s[1..], find);
      if n.Some? {
        SliceBehind(s, 1, n.value + 1, n.value + 1 + |find|);
      }
    }
  }

  /** The catalogue's opening brace. */
  function OuterOf(text: string): (outer: Option<nat>)
    ensures outer.Some? ==> outer.value < |text| && text[outer.value] == '{'
  {
    var start := IndexOf(text, DECLARATION);
    IndexFinds(text, DECLARATION);
    if start.None? then None
    else
      var n := IndexOf(text[start.value..], "= {");
      IndexFinds(text[start.value..], "= {");
      if n.None? then None
      else
        assert text[start.value..][n.value..n.value + 3][2] == '{';
        Some(start.value + n.value + 2)
  }

  /** The catalogue's slots in order; none when the text has no catalogue or a brace does not close. */
  function Reading(text: string): Option<seq<Block>> {
    var outer := OuterOf(text);
    if outer.None? then None
    else
      var end := ClosingAt(text, outer.value);
      if end.None? then None else BlocksFrom(text, outer.value + 1, false, end.value)
  }

  /** The slots found so far and those to come, if those can be read. */
  function Joined(found: seq<Block>, rest: Option<seq<Block>>): Option<seq<Block>> {
    if rest.None? then None else Some(found + rest.value)
  }

  lemma JoinedMore(found: seq<Block>, block: Block, rest: Option<seq<Block>>)
    ensures Joined([], rest) == rest && Joined(found, Some([])) == Some(found)
    ensures Joined(found, Joined([block], rest)) == Joined(found + [block], rest)
  {
    if rest.Some? {
      assert [] + rest.value == rest.value;
      assert found + ([block] + rest.value) == (found + [block]) + rest.value;
    }
    assert found + [] == found;
  }

  lemma BlocksUnfold(text: string, from: nat, lineStart: bool, end: nat)
    requires from <= |text|
    ensures var m := HeadFrom(text, from, lineStart);
            if m.None? || m.value.start >= end then BlocksFrom(text, from, lineStart, end) == Some([])
            else
              var close := ClosingAt(text, m.value.open);
              if close.None? then BlocksFrom(text, from, lineStart, end) == None
              else
                && m.value.open < close.value < |text|
                && BlocksFrom(text, from, lineStart, end)
                   == Joined([BlockAt(text, m.value, close.value)], BlocksFrom(text, close.value + 1, false, end))
  {
    hide ClosingAt;
    hide HeadFrom;
    hide BlockAt;
    var m := HeadFrom(text, from, lineStart);
    if m.Some? {
      ClosingIsBrace(text, m.value.open);
    }
  }

  method CatalogueBlocks(text: string) returns (blocks: Option<seq<Block>>)
    ensures blocks == Reading(text)
  {
    hide ClosingAt;
    hide HeadFrom;
    hide ItemsOf;
    hide BlocksFrom;
    hide Joined;
    var outer := OuterOf(text);
    if outer.None? {
      return None;
    }
    var end := Closing(text, outer.value);
    if end.None? {
      return None;
    }
    var found: seq<Block> := [];
    var lastIndex, lineStart := outer.value + 1, false;
    JoinedMore([], Block("", "", 0, 0, []), BlocksFrom(text, lastIndex, false, end.value));
    while true
      invariant outer.value < lastIndex <= |text|
      invariant Reading(text) == Joined(found, BlocksFrom(text, lastIndex, lineStart, end.value))
      decreases |text| - lastIndex
    {
      BlocksUnfold(text, lastIndex, lineStart, end.value);
      var m := HeadFrom(text, lastIndex, lineStart);
      if m.None? || m.value.start >= end.value {
        JoinedMore(found, Block("", "", 0, 0, []), None);
        return Some(found);
      }
      var close := Closing(text, m.value.open);
      if close.None? {
        NothingToJoin(found);
        return None;
      }
      var items := ReadItems(text[m.value.open + 1..close.value]);
      var block := Block(text[m.value.name..m.value.open - 2], text[m.value.start..m.value.name], m.value.open, close.value, items);
      JoinedMore(found, block, BlocksFrom(text, close.value + 1, false, end.value));
      found := found + [block];
      lastIndex, lineStart := close.value + 1, false;
    }
  }

  lemma NothingToJoin(found: seq<Block>)
    ensures Joined(found, None) == None
  {}

  // -------------------------------------------------------------------------------------------------------------
  // Two texts that agree before a brace or behind one
  // -------------------------------------------------------------------------------------------------------------

  lemma {:induction false} SpacesStop(q: string, x: string)
    ensures Spaces(q + "{" + x) == Spaces(q)
    decreases |q|
  {
    if q != [] {
      assert (q + "{" + x)[1..] == q[1..] + "{" + x;
      SpacesStop(q[1..], x);
    }
  }

  lemma {:induction false} WordsStop(q: string, x: string)
    ensures Words(q + "{" + x) == Words(q)
    decreases |q|
  {
    if q != [] {
      assert (q + "{" + x)[1..] == q[1..] + "{" + x;
      WordsStop(q[1..], x);
    }
  }

  lemma HeadByStops(q: string, x: string, y: string, indent: nat, name: nat)
    requires indent + name <= |q|
    ensures HeadBy(q + "{" + x, indent, name) == HeadBy(q + "{" + y, indent, name)
    ensures HeadBy(q + "{" + x, indent, name).Some? ==>
              HeadBy(q + "{" + x, indent, name).value == Head(indent, name) && indent + name + 2 <= |q|
  {
    assert forall i :: 0 <= i <= |q| ==> (q + "{" + x)[i] == (q + "{" + y)[i];
    assert (q + "{" + x)[|q|] == '{';
  }

  /** A head ends at its brace, so what stands behind the next brace does not matter to it. */
  lemma HeadStops(q: string, x: string, y: string)
    ensures HeadIn(q + "{" + x) == HeadIn(q + "{" + y)
    ensures HeadIn(q + "{" + x).Some? ==>
              var h := HeadIn(q + "{" + x).value; h.indent + h.name + 2 <= |q|
  {
    hide HeadBy;
    hide Spaces;
    hide Words;
    var indent := Spaces(q);
    SpacesStop(q, x);
    SpacesStop(q, y);
    WordsStop(q[indent..], x);
    WordsStop(q[indent..], y);
    assert (q + "{" + x)[indent..] == q[indent..] + "{" + x;
    assert (q + "{" + y)[indent..] == q[indent..] + "{" + y;
    HeadByStops(q, x, y, indent, Words(q[indent..]));
  }

  lemma NextHeadUnfolds(s: string, lineStart: bool)
    requires s != []
    ensures NextHead(s, lineStart)
         == if lineStart && HeadIn(s).Some? then Some(0) else Plus(NextHead(s[1..], IsLineEnd(s[0])), 1)
  {
    hide HeadIn;
  }

  lemma {:induction false} NextHeadStops(q: string, x: string, y: string, lineStart: bool)
    requires var p := NextHead(q + "{" + x, lineStart); p.Some? && p.value < |q|
    ensures NextHead(q + "{" + y, lineStart) == NextHead(q + "{" + x, lineStart)
    decreases |q|
  {
    hide NextHead;
    hide HeadIn;
    HeadStops(q, x, y);
    NextHeadUnfolds(q + "{" + x, lineStart);
    NextHeadUnfolds(q + "{" + y, lineStart);
    if !(lineStart && HeadIn(q + "{" + x).Some?) {
      assert (q + "{" + x)[1..] == q[1..] + "{" + x && (q + "{" + y)[1..] == q[1..] + "{" + y;
      NextHeadStops(q[1..], x, y, IsLineEnd(q[0]));
    }
  }

  lemma {:induction false} ClosingStops(a: string, x: string, y: string, depth: nat)
    requires depth > 0 && ClosingIn(a + x, depth).Some? && ClosingIn(a + x, depth).value < |a|
    ensures ClosingIn(a + y, depth) == ClosingIn(a + x, depth)
    decreases |a|
  {
    assert (a + x)[1..] == a[1..] + x && (a + y)[1..] == a[1..] + y;
    if !(a[0] == '}' && depth == 1) {
      ClosingStops(a[1..], x, y, if a[0] == '{' then depth + 1 else if a[0] == '}' then depth - 1 else depth);
    }
  }

  lemma {:induction false} IndexStops(a: string, x: string, y: string, find: string)
    requires IndexOf(a + x, find).Some? && IndexOf(a + x, find).value + |find| <= |a|
    ensures IndexOf(a + y, find) == IndexOf(a + x, find)
    decreases |a|
  {
    var n := IndexOf(a + x, find).value;
    assert |find| <= |a| && (a + x)[..|find|] == a[..|find|] == (a + y)[..|find|];
    assert find <= a + x <==> find == (a + x)[..|find|];
    assert find <= a + y <==> find == (a + y)[..|find|];
    if n > 0 {
      assert (a + x)[1..] == a[1..] + x && (a + y)[1..] == a[1..] + y;
      IndexStops(a[1..], x, y, find);
    }
  }

  lemma {:induction false} LevelAbove(s: string, depth: nat, by_: nat)
    requires Level(s, depth).Some?
    ensures Level(s, depth + by_) == Plus(Level(s, depth), by_)
    decreases |s|
  {
    if s != [] {
      LevelAbove(s[1..], if s[0] == '{' then depth + 1 else if s[0] == '}' then depth - 1 else depth, by_);
    }
  }

  /** The same slot, wherever it stands. */
  predicate SameSlot(b: Block, c: Block) { b.name == c.name && b.indent == c.indent && b.items == c.items }

  ghost predicate SameSlots(bs: seq<Block>, cs: seq<Block>) {
    |bs| == |cs| && forall i :: 0 <= i < |bs| ==> SameSlot(bs[i], cs[i])
  }

  lemma NoSlots()
    ensures SameSlots([], [])
  {}

  lemma JoinedSame(b: Block, bs: Option<seq<Block>>, c: Block, cs: Option<seq<Block>>)
    requires SameSlot(b, c) && bs.Some? == cs.Some? && (bs.Some? ==> SameSlots(bs.value, cs.value))
    ensures Joined([b], bs).Some? <==> bs.Some?
    ensures Joined([c], cs).Some? <==> bs.Some?
    ensures bs.Some? ==> SameSlots(Joined([b], bs).value, Joined([c], cs).value)
  {}

  /** The texts agree from `j` and `k` on. */
  ghost predicate SameTail(x: string, j: nat, y: string, k: nat) { j <= |x| && k <= |y| && x[j..] == y[k..] }

  /** Behind the same brace the same slots are read, wherever it stands. */
  lemma {:induction false} BlocksBehind(x: string, j: nat, y: string, k: nat, end: nat, end': nat)
    requires j <= |x| && k <= |y| && SameTail(x, j, y, k) && end - j == end' - k && BlocksFrom(x, j, false, end).Some?
    ensures BlocksFrom(y, k, false, end').Some?
    ensures SameSlots(BlocksFrom(x, j, false, end).value, BlocksFrom(y, k, false, end').value)
    decreases |x| - j
  {
    hide BlocksFrom;
    hide SameTail;
    hide SameSlot;
    hide SameSlots;
    var close, b, c := FirstBehind(x, j, y, k, end, end');
    if close.Some? {
      BlocksBehind(x, close.value + 1, y, close.value + 1 - j + k, end, end');
      JoinedSame(b, BlocksFrom(x, close.value + 1, false, end), c, BlocksFrom(y, close.value + 1 - j + k, false, end'));
    } else {
      NoSlots();
    }
  }

  /** The first slot behind the brace, if there is one, in both texts. */
  lemma FirstBehind(x: string, j: nat, y: string, k: nat, end: nat, end': nat)
    returns (close: Option<nat>, b: Block, c: Block)
    requires j <= |x| && k <= |y| && SameTail(x, j, y, k) && end - j == end' - k && BlocksFrom(x, j, false, end).Some?
    ensures close.None? ==> BlocksFrom(x, j, false, end) == Some([]) && BlocksFrom(y, k, false, end') == Some([])
    ensures close.Some? ==>
              var n := close.value - j + k;
              && j <= close.value < |x| && n < |y| && SameTail(x, close.value + 1, y, n + 1) && SameSlot(b, c)
              && BlocksFrom(x, j, false, end) == Joined([b], BlocksFrom(x, close.value + 1, false, end))
              && BlocksFrom(y, k, false, end') == Joined([c], BlocksFrom(y, n + 1, false, end'))
  {
    hide BlocksFrom;
    hide HeadFrom;
    hide ClosingAt;
    hide BlockAt;
    hide SameSlot;
    hide SameTail;
    BlocksUnfold(x, j, false, end);
    BlocksUnfold(y, k, false, end');
    PlacesBehind(x, j, y, k);
    var m := HeadFrom(x, j, false);
    if m.Some? && m.value.start < end {
      close := ClosingAt(x, m.value.open);
      BlockBehind(x, j, y, k, m.value, close.value);
      b, c := BlockAt(x, m.value, close.value), BlockAt(y, m.value.Moved(k - j), close.value - j + k);
    } else {
      close := None;
      b, c := Block("", "", 0, 0, []), Block("", "", 0, 0, []);
    }
  }

  lemma BlockBehind(x: string, j: nat, y: string, k: nat, m: Place, close: nat)
    requires SameTail(x, j, y, k) && j <= m.start <= m.name && m.name + 2 <= m.open < |x|
    requires ClosingAt(x, m.open) == Some(close) && m.open < close < |x|
    ensures |y| == |x| - j + k
    ensures ClosingAt(y, m.open - j + k) == Some(close - j + k) && SameTail(x, close + 1, y, close + 1 - j + k)
    ensures SameSlot(BlockAt(x, m, close), BlockAt(y, m.Moved(k - j), close - j + k))
  {
    hide ItemsOf;
    hide ClosingAt;
    ClosesBehind(x, j, y, k, m.open, m.open - j + k);
    SlicesBehind(x, j, y, k, m.start, m.name);
    SlicesBehind(x, j, y, k, m.name, m.open - 2);
    SlicesBehind(x, j, y, k, m.open + 1, close);
    SlicesBehind(x, j, y, k, close + 1, |x|);
  }

  lemma SlicesBehind(x: string, j: nat, y: string, k: nat, from: nat, to: nat)
    requires j <= |x| && k <= |y| && x[j..] == y[k..] && j <= from <= to <= |x|
    ensures to - j + k <= |y| == |x| - j + k && x[from..to] == y[from - j + k..to - j + k]
    ensures x[from..] == y[from - j + k..]
  {
    SliceBehind(x, j, from, to);
    SliceBehind(y, k, from - j + k, to - j + k);
  }

  lemma SliceBehind(s: string, j: nat, from: nat, to: nat)
    requires j <= from <= to <= |s|
    ensures s[from..to] == s[j..][from - j..to - j] && s[from..] == s[j..][from - j..]
  {}

  lemma PlacesBehind(x: string, j: nat, y: string, k: nat)
    requires j <= |x| && k <= |y| && SameTail(x, j, y, k)
    ensures var m, n := HeadFrom(x, j, false), HeadFrom(y, k, false);
            m.Some? == n.Some? && (m.Some? ==> n.value == m.value.Moved(k - j))
  {
    hide HeadIn;
    hide NextHead;
    var p := NextHead(x[j..], false);
    if p.Some? {
      SliceOfSlice(x, j, p.value);
      SliceOfSlice(y, k, p.value);
    }
  }

  lemma ClosesBehind(x: string, j: nat, y: string, k: nat, open: nat, open': nat)
    requires j <= |x| && k <= |y| && x[j..] == y[k..] && j <= open < |x| && open' == open - j + k
    ensures open' < |y|
    ensures ClosingAt(y, open') == if ClosingAt(x, open).None? then None else Some(ClosingAt(x, open).value - j + k)
  {
    assert |x[j..]| == |y[k..]|;
    SlicesBehind(x, j, y, k, open + 1, |x|);
  }

  // -------------------------------------------------------------------------------------------------------------
  // A slot rewritten
  // -------------------------------------------------------------------------------------------------------------

  lemma PlaceHead(text: string, from: nat, lineStart: bool)
    requires from <= |text|
    ensures var p := NextHead(text[from..], lineStart);
            HeadFrom(text, from, lineStart) == if p.None? then None else PlaceOf(from + p.value, HeadIn(text[from + p.value..]))
  {
    hide HeadIn;
    hide NextHead;
  }

  lemma HeadChars(s: string)
    requires HeadIn(s).Some?
    ensures var h := HeadIn(s).value;
            && (forall i :: 0 <= i < h.indent ==> s[i] == ' ')
            && (forall i :: 0 <= i <= h.indent + h.name + 2 ==> s[i] != '}')
  {
    hide Spaces;
    hide Words;
    var indent := Spaces(s);
    var name := Words(s[indent..]);
    assert forall i :: indent <= i < indent + name ==> s[i] == s[indent..][i - indent];
  }

  /** The characters of a head: its indent is spaces, and it has no closing brace. */
  lemma PlaceChars(text: string, from: nat, lineStart: bool)
    requires from <= |text| && HeadFrom(text, from, lineStart).Some?
    ensures var m := HeadFrom(text, from, lineStart).value;
            && Blank(text[m.start..m.name])
            && forall i :: m.start <= i <= m.open ==> text[i] != '}'
  {
    hide HeadFrom;
    hide NextHead;
    hide HeadIn;
    PlaceHead(text, from, lineStart);
    var m := HeadFrom(text, from, lineStart).value;
    HeadChars(text[m.start..]);
    assert forall i :: m.start <= i <= m.open ==> text[i] == text[m.start..][i - m.start];
  }

  /** Every slot read stands behind `from`, closes its brace, and opens before the catalogue's end. */
  lemma {:induction false} SlotIsSound(text: string, from: nat, lineStart: bool, end: nat, i: nat)
    requires from <= |text| && BlocksFrom(text, from, lineStart, end).Some? && i < |BlocksFrom(text, from, lineStart, end).value|
    ensures var b := BlocksFrom(text, from, lineStart, end).value[i];
            && from <= b.open < b.close < |text| && text[b.open] == '{' && ClosingAt(text, b.open) == Some(b.close)
            && b.items == ItemsOf(text[b.open + 1..b.close]) && Blank(b.indent)
            && (end < |text| && text[end] == '}' ==> b.open < end)
    decreases i
  {
    hide BlocksFrom;
    hide ClosingAt;
    hide ItemsOf;
    hide HeadFrom;
    hide Blank;
    BlocksUnfold(text, from, lineStart, end);
    PlaceChars(text, from, lineStart);
    if i > 0 {
      var close := ClosingAt(text, HeadFrom(text, from, lineStart).value.open).value;
      SlotIsSound(text, close + 1, false, end, i - 1);
    }
  }

  lemma TailOfSum(p: string, x: string, k: nat)
    requires k <= |p|
    ensures (p + "{" + x)[k..] == p[k..] + "{" + x
  {}

  /** Up to a brace both texts have, the same head is found. */
  lemma PlacesStop(p: string, x: string, y: string, from: nat, lineStart: bool)
    requires from <= |p|
    requires var m := HeadFrom(p + "{" + x, from, lineStart); m.Some? && m.value.start < |p|
    ensures HeadFrom(p + "{" + y, from, lineStart) == HeadFrom(p + "{" + x, from, lineStart)
    ensures HeadFrom(p + "{" + x, from, lineStart).value.open <= |p|
  {
    hide HeadIn;
    hide NextHead;
    hide HeadFrom;
    var u, v := p + "{" + x, p + "{" + y;
    PlaceHead(u, from, lineStart);
    PlaceHead(v, from, lineStart);
    NextHeadStopsFrom(p, x, y, from, lineStart);
    HeadStopsFrom(p, x, y, from + NextHead(u[from..], lineStart).value);
  }

  lemma NextHeadStopsFrom(p: string, x: string, y: string, from: nat, lineStart: bool)
    requires from <= |p|
    requires var n := NextHead((p + "{" + x)[from..], lineStart); n.Some? && from + n.value < |p|
    ensures NextHead((p + "{" + y)[from..], lineStart) == NextHead((p + "{" + x)[from..], lineStart)
  {
    hide NextHead;
    TailOfSum(p, x, from);
    TailOfSum(p, y, from);
    NextHeadStops(p[from..], x, y, lineStart);
  }

  lemma HeadStopsFrom(p: string, x: string, y: string, from: nat)
    requires from <= |p|
    ensures HeadIn((p + "{" + x)[from..]) == HeadIn((p + "{" + y)[from..])
    ensures HeadIn((p + "{" + x)[from..]).Some? ==>
              var h := HeadIn((p + "{" + x)[from..]).value; from + h.indent + h.name + 2 <= |p|
  {
    hide HeadIn;
    TailOfSum(p, x, from);
    TailOfSum(p, y, from);
    HeadStops(p[from..], x, y);
  }

  lemma ClosesStop(p: string, x: string, y: string, open: nat)
    requires open < |p| && ClosingAt(p + "{" + x, open).Some? && ClosingAt(p + "{" + x, open).value < |p|
    ensures ClosingAt(p + "{" + y, open) == ClosingAt(p + "{" + x, open)
  {
    var u, v := p + "{" + x, p + "{" + y;
    assert u[open + 1..] == p[open + 1..] + ("{" + x) && v[open + 1..] == p[open + 1..] + ("{" + y);
    ClosingStops(p[open + 1..], "{" + x, "{" + y, 1);
  }

  /** The readings differ in the items of slot `i` alone. */
  ghost predicate SameBut(bs: seq<Block>, cs: seq<Block>, i: nat, items: seq<string>) {
    && i < |bs| == |cs|
    && (forall k :: 0 <= k < |bs| ==> SameSlot(bs[k].(items := []), cs[k].(items := [])))
    && (forall k :: 0 <= k < |bs| && k != i ==> SameSlot(bs[k], cs[k]))
    && cs[i].items == items
  }

  lemma FirstDiffers(b: Block, c: Block, bs: seq<Block>, cs: seq<Block>)
    requires SameSlots(bs, cs) && b.name == c.name && b.indent == c.indent
    ensures SameBut([b] + bs, [c] + cs, 0, c.items)
  {}

  lemma LaterDiffers(b: Block, c: Block, bs: seq<Block>, cs: seq<Block>, i: nat, items: seq<string>)
    requires SameBut(bs, cs, i, items) && SameSlot(b, c)
    ensures SameBut([b] + bs, [c] + cs, i + 1, items)
  {}

  /** What the rewriting of the slot that opens behind `p` changes: its inside, and nothing behind it but its place. */
  ghost predicate Rewrites(p: string, x: string, y: string, c: nat, d: nat, end: nat, end': nat) {
    var u, v := p + "{" + x, p + "{" + y;
    && ClosingAt(u, |p|) == Some(c) && ClosingAt(v, |p|) == Some(d) && |p| < c < |u| && |p| < d < |v|
    && SameTail(u, c + 1, v, d + 1) && c < end && end - c == end' - d
  }

  lemma {:induction false} BlocksRewritten(p: string, x: string, y: string, c: nat, d: nat, from: nat, lineStart: bool,
                                          end: nat, end': nat, i: nat)
    requires from <= |p| && Rewrites(p, x, y, c, d, end, end') && |p| < d < |p + "{" + y|
    requires var bs := BlocksFrom(p + "{" + x, from, lineStart, end); bs.Some? && i < |bs.value| && bs.value[i].open == |p|
    ensures var bs, cs := BlocksFrom(p + "{" + x, from, lineStart, end), BlocksFrom(p + "{" + y, from, lineStart, end');
            cs.Some? && SameBut(bs.value, cs.value, i, ItemsOf((p + "{" + y)[|p| + 1..d]))
    decreases i
  {
    hide BlocksFrom;
    hide HeadFrom;
    hide ClosingAt;
    hide ItemsOf;
    hide SameBut;
    hide SameSlots;
    hide SameTail;
    var u, v := p + "{" + x, p + "{" + y;
    FirstRewritten(p, x, y, c, d, from, lineStart, end, end', i);
    var m := HeadFrom(u, from, lineStart).value;
    var close := ClosingAt(u, m.open).value;
    if i == 0 {
      BlocksBehind(u, c + 1, v, d + 1, end, end');
      FirstDiffers(BlockAt(u, m, c), BlockAt(v, m, d), BlocksFrom(u, c + 1, false, end).value,
                   BlocksFrom(v, d + 1, false, end').value);
    } else {
      BlocksRewritten(p, x, y, c, d, close + 1, false, end, end', i - 1);
      LaterDiffers(BlockAt(u, m, close), BlockAt(v, m, close), BlocksFrom(u, close + 1, false, end).value,
                   BlocksFrom(v, close + 1, false, end').value, i - 1, ItemsOf(v[|p| + 1..d]));
    }
  }

  /** The first slot from `from` on: the one rewritten, or one before it that both texts have. */
  lemma FirstRewritten(p: string, x: string, y: string, c: nat, d: nat, from: nat, lineStart: bool, end: nat, end': nat, i: nat)
    requires from <= |p| && Rewrites(p, x, y, c, d, end, end')
    requires var bs := BlocksFrom(p + "{" + x, from, lineStart, end); bs.Some? && i < |bs.value| && bs.value[i].open == |p|
    ensures var u, v, m := p + "{" + x, p + "{" + y, HeadFrom(p + "{" + x, from, lineStart);
            && m.Some? && |p| < c < |u| && |p| < d < |v| && c < end && end - c == end' - d && SameTail(u, c + 1, v, d + 1)
            && ClosingAt(u, m.value.open).Some? && m.value.open <= |p|
            && (i == 0 ==>
                  && m.value.open == |p|
                  && BlocksFrom(u, from, lineStart, end) == Joined([BlockAt(u, m.value, c)], BlocksFrom(u, c + 1, false, end))
                  && BlocksFrom(v, from, lineStart, end') == Joined([BlockAt(v, m.value, d)], BlocksFrom(v, d + 1, false, end')))
            && (i > 0 ==>
                  var close := ClosingAt(u, m.value.open).value;
                  && m.value.open < close < |p| && SameSlot(BlockAt(u, m.value, close), BlockAt(v, m.value, close))
                  && BlocksFrom(u, from, lineStart, end)
                     == Joined([BlockAt(u, m.value, close)], BlocksFrom(u, close + 1, false, end))
                  && BlocksFrom(v, from, lineStart, end')
                     == Joined([BlockAt(v, m.value, close)], BlocksFrom(v, close + 1, false, end')))
  {
    hide BlocksFrom;
    hide HeadFrom;
    hide ClosingAt;
    hide ItemsOf;
    hide SameTail;
    var u, v := p + "{" + x, p + "{" + y;
    BlocksUnfold(u, from, lineStart, end);
    BlocksUnfold(v, from, lineStart, end');
    var m := HeadFrom(u, from, lineStart).value;
    var close := ClosingAt(u, m.open).value;
    if i > 0 {
      SlotIsSound(u, close + 1, false, end, i - 1);
      ClosesStop(p, x, y, m.open);
    }
    PlacesStop(p, x, y, from, lineStart);
    if i > 0 {
      SameBefore(p, x, y, m, close);
    }
  }

  lemma SameBefore(p: string, x: string, y: string, m: Place, close: nat)
    requires m.start <= m.name && m.name + 2 <= m.open < close < |p|
    ensures BlockAt(p + "{" + x, m, close) == BlockAt(p + "{" + y, m, close)
  {
    hide ItemsOf;
    var u, v := p + "{" + x, p + "{" + y;
    assert u[m.start..m.name] == p[m.start..m.name] == v[m.start..m.name];
    assert u[m.name..m.open - 2] == p[m.name..m.open - 2] == v[m.name..m.open - 2];
    assert u[m.open + 1..close] == p[m.open + 1..close] == v[m.open + 1..close];
  }

  // -------------------------------------------------------------------------------------------------------------
  // The edit
  // -------------------------------------------------------------------------------------------------------------

  /** `localeCompare`, any total preorder of texts. */
  type Locale = (string, string) -> int

  ghost predicate IsLocale(locale: Locale) {
    && (forall s, t :: locale(s, t) <= 0 || locale(t, s) <= 0)
    && (forall s, t :: locale(s, t) > 0 ==> locale(t, s) <= 0)
    && (forall s, t, r :: locale(s, t) <= 0 && locale(t, r) <= 0 ==> locale(s, r) <= 0)
  }

  function Unquoted(s: string): string {
    var rest := if s != "" && s[0] == '\'' then s[1..] else s;
    if rest != "" && rest[|rest| - 1] == '\'' then rest[..|rest| - 1] else rest
  }

  /** The provider an item names; without a colon the source cuts the last letter. */
  function ProviderOf(item: string): string {
    var colon := IndexOf(item, ":");
    IndexFinds(item, ":");
    Unquoted(Trim(if colon.Some? then item[..colon.value] else if item == "" then "" else item[..|item| - 1]))
  }

  /** `/:\s*builtIn$/`. */
  predicate IsBuiltIn(item: string) {
    && |item| >= 7 && item[|item| - 7..] == "builtIn"
    && var front := TrimEnd(item[..|item| - 7]); front != "" && front[|front| - 1] == ':'
  }

  predicate IsKeyStart(c: char) { 'a' <= c <= 'z' || c == '_' || c == '$' }

  predicate IsPlainKey(s: string) { s != "" && IsKeyStart(s[0]) && forall i :: 0 < i < |s| ==> IsWord(s[i]) || s[i] == '$' }

  /** The key of the item, quoted if it must be. */
  function KeyText(provider: string): string { if IsPlainKey(provider) then provider else "'" + provider + "'" }

  function SdkText(sdk: Option<string>): string { if sdk.None? then "" else " sdk: '" + sdk.value + "' " }

  function AddedItem(provider: string, sdk: Option<string>): string {
    KeyText(provider) + ": " + ("{" + SdkText(sdk) + "}")
  }

  /** The place of the first package provider that sorts behind the new one. */
  function PlaceFor(items: seq<string>, provider: string, locale: Locale): (at: nat)
    ensures at <= |items|
  {
    if items == [] || (!IsBuiltIn(items[0]) && locale(ProviderOf(items[0]), provider) > 0) then 0
    else 1 + PlaceFor(items[1..], provider, locale)
  }

  function NextItems(items: seq<string>, provider: string, sdk: Option<string>, locale: Locale): seq<string> {
    var at := PlaceFor(items, provider, locale);
    items[..at] + [AddedItem(provider, sdk)] + items[at..]
  }

  /** The last slot of that name, as a map built in order keeps it. */
  function LastNamed(blocks: seq<Block>, key: string): (i: Option<nat>)
    ensures i.Some? ==> i.value < |blocks| && blocks[i.value].name == key
  {
    if blocks == [] then None
    else if blocks[|blocks| - 1].name == key then Some(|blocks| - 1)
    else LastNamed(blocks[..|blocks| - 1], key)
  }

  function LineStartOf(text: string, i: nat): (n: nat)
    requires i <= |text|
    ensures n <= i
  {
    if i == 0 || text[i - 1] == '\n' then i else LineStartOf(text, i - 1)
  }

  const LINE_LENGTH := 100

  /** Whether the edit writes an item a line: the slot was so, or one line does not fit. */
  predicate OpensALine(text: string, block: Block, next: seq<string>) {
    && block.open <= block.close <= |text|
    && ('\n' in text[block.open..block.close]
        || block.open - LineStartOf(text, block.open) + |"{" + OneLineInside(next) + "}"| + 1 > LINE_LENGTH)
  }

  /** Between the braces. */
  function InsideOf(text: string, block: Block, next: seq<string>): string {
    if OpensALine(text, block, next) then MultiLineInside(next, block.indent) else OneLineInside(next)
  }

  function Replaced(text: string, block: Block, inside: string): string
    requires block.open < block.close < |text|
  {
    text[..block.open] + "{" + (inside + "}" + text[block.close + 1..])
  }

  /** The whole source text after the edit; none when the catalogue cannot be read or has no such slot. */
  function CatalogueEdit(text: string, key: string, provider: string, sdk: Option<string>, locale: Locale): Option<string> {
    var blocks := Reading(text);
    if blocks.None? then None
    else
      var i := LastNamed(blocks.value, key);
      if i.None? then None
      else
        SlotOfReading(text, i.value);
        var block := blocks.value[i.value];
        Some(Replaced(text, block, InsideOf(text, block, NextItems(block.items, provider, sdk, locale))))
  }

  /** A slot of a reading, and the catalogue's braces around it. */
  lemma SlotOfReading(text: string, i: nat)
    requires Reading(text).Some? && i < |Reading(text).value|
    ensures var b := Reading(text).value[i];
            && OuterOf(text).Some? && ClosingAt(text, OuterOf(text).value).Some?
            && OuterOf(text).value < b.open < b.close < |text| && b.open < ClosingAt(text, OuterOf(text).value).value
            && text[b.open] == '{' && text[b.close] == '}' && Level(text[b.open + 1..b.close], 0) == Some(0)
            && b.items == ItemsOf(text[b.open + 1..b.close]) && Blank(b.indent)
            && ClosingAt(text, b.open) == Some(b.close)
  {
    hide OuterOf;
    hide ClosingAt;
    hide BlocksFrom;
    hide ItemsOf;
    hide Level;
    hide Blank;
    var outer := OuterOf(text).value;
    ClosingIsBrace(text, outer);
    SlotIsSound(text, outer + 1, false, ClosingAt(text, outer).value, i);
    ClosingIsBrace(text, Reading(text).value[i].open);
  }

  // -------------------------------------------------------------------------------------------------------------
  // Reading the edit back
  // -------------------------------------------------------------------------------------------------------------

  lemma BracedLevel(inside: string, depth: nat)
    requires Level(inside, 0) == Some(0)
    ensures Level("{" + inside + "}", depth) == Some(depth)
  {
    LevelAbove(inside, 0, depth + 1);
    LevelOfSum("{" + inside, "}", depth);
    LevelOfSum("{", inside, depth);
  }

  /** Whatever stands between the braces, if it is balanced it ends where they close. */
  lemma InsideCloses(p: string, inside: string, rest: string)
    requires Level(inside, 0) == Some(0)
    ensures var u := p + "{" + (inside + "}" + rest);
            ClosingAt(u, |p|) == Some(|p| + 1 + |inside|) && u[|p| + 1..|p| + 1 + |inside|] == inside
            && u[|p| + 2 + |inside|..] == rest && |p| + 1 + |inside| < |u|
  {
    var u := p + "{" + (inside + "}" + rest);
    assert u[|p| + 1..] == inside + ("}" + rest);
    ClosingPast(inside, "}" + rest, 0);
  }

  /** The catalogue's end behind a slot: past the slot, then where the open braces close. */
  lemma OuterCloses(p: string, inside: string, rest: string, outer: nat) returns (depth: nat)
    requires outer < |p| && Level(inside, 0) == Some(0)
    requires var end := ClosingAt(p + "{" + (inside + "}" + rest), outer); end.Some? && end.value > |p|
    ensures Level(p[outer + 1..], 0) == Some(depth)
    ensures ClosingAt(p + "{" + (inside + "}" + rest), outer) == Plus(ClosingIn(rest, 1 + depth), |p| + 2 + |inside|)
  {
    hide Level;
    hide ClosingIn;
    var u, m := p + "{" + (inside + "}" + rest), p[outer + 1..];
    TailOfSum(p, inside + "}" + rest, outer + 1);
    NotYetClosed(u[outer + 1..], 0, |m|);
    assert u[outer + 1..][..|m|] == m;
    depth := Level(m, 0).value;
    ClosesOver(m, inside, rest, depth);
    assert u[outer + 1..] == m + ("{" + inside + "}" + rest);
  }

  lemma ClosesOver(m: string, inside: string, rest: string, depth: nat)
    requires Level(m, 0) == Some(depth) && Level(inside, 0) == Some(0)
    ensures ClosingIn(m + ("{" + inside + "}" + rest), 1) == Plus(ClosingIn(rest, 1 + depth), |m| + |inside| + 2)
  {
    BracedLevel(inside, depth);
    ClosesOverText(m, "{" + inside + "}", rest, depth);
  }

  lemma ClosesOverText(m: string, braced: string, rest: string, depth: nat)
    requires Level(m, 0) == Some(depth) && Level(braced, depth) == Some(depth)
    ensures ClosingIn(m + (braced + rest), 1) == Plus(ClosingIn(rest, 1 + depth), |m| + |braced|)
  {
    hide Level;
    hide ClosingIn;
    ClosingPast(m, braced + rest, 0);
    ClosingPast(braced, rest, depth);
  }

  lemma OuterIsBefore(text: string)
    requires OuterOf(text).Some?
    ensures IndexOf(text, DECLARATION).Some? && IndexOf(text, DECLARATION).value + |DECLARATION| <= OuterOf(text).value
  {
    hide IndexOf;
    NoEqualsInDeclaration();
    IndexFinds(text, DECLARATION);
    IndexFinds(text[IndexOf(text, DECLARATION).value..], "= {");
    var start := IndexOf(text, DECLARATION).value;
    var n := IndexOf(text[start..], "= {").value;
    assert text[start..][n] == text[start..][n..n + 3][0] == '=';
    BehindDeclaration(text, start, DECLARATION, n);
  }

  lemma NoEqualsInDeclaration()
    ensures '=' !in DECLARATION
  {}

  lemma BehindDeclaration(text: string, start: nat, declaration: string, n: nat)
    requires start + |declaration| <= |text| && text[start..start + |declaration|] == declaration
    requires '=' !in declaration && start + n < |text| && text[start..][n] == '='
    ensures n >= |declaration|
  {
    assert forall i :: 0 <= i < |declaration| ==> declaration[i] in declaration && text[start..][i] == declaration[i];
  }

  /** The catalogue opens at the same place when only what stands behind is another. */
  lemma OuterStops(p: string, x: string, y: string)
    requires OuterOf(p + "{" + x).Some? && OuterOf(p + "{" + x).value < |p|
    ensures OuterOf(p + "{" + y) == OuterOf(p + "{" + x)
  {
    hide IndexOf;
    var u, v := p + "{" + x, p + "{" + y;
    OuterIsBefore(u);
    IndexStopsAtBrace(p, x, y, 0, DECLARATION);
    assert u[0..] == u && v[0..] == v;
    IndexStopsAtBrace(p, x, y, IndexOf(u, DECLARATION).value, "= {");
  }

  lemma IndexStopsAtBrace(p: string, x: string, y: string, k: nat, find: string)
    requires k <= |p| && IndexOf((p + "{" + x)[k..], find).Some?
    requires k + IndexOf((p + "{" + x)[k..], find).value + |find| <= |p|
    ensures IndexOf((p + "{" + y)[k..], find) == IndexOf((p + "{" + x)[k..], find)
  {
    hide IndexOf;
    TailOfSum(p, x, k);
    TailOfSum(p, y, k);
    IndexStopsAtFirst(p[k..], x, y, find);
  }

  lemma IndexStopsAtFirst(p: string, x: string, y: string, find: string)
    requires IndexOf(p + "{" + x, find).Some? && IndexOf(p + "{" + x, find).value + |find| <= |p|
    ensures IndexOf(p + "{" + y, find) == IndexOf(p + "{" + x, find)
  {
    hide IndexOf;
    assert p + "{" + x == p + ("{" + x) && p + "{" + y == p + ("{" + y);
    IndexStops(p, "{" + x, "{" + y, find);
  }

  /** Main result, for any balanced inside: only the items of the slot rewritten are read otherwise, as the new inside says. */
  lemma ReplacedIsReadBack(text: string, i: nat, inside: string)
    requires Reading(text).Some? && i < |Reading(text).value| && Level(inside, 0) == Some(0)
    requires var b := Reading(text).value[i]; b.open < b.close < |text|
    ensures var after := Replaced(text, Reading(text).value[i], inside);
            Reading(after).Some? && SameBut(Reading(text).value, Reading(after).value, i, ItemsOf(inside))
  {
    hide OuterOf;
    hide ClosingAt;
    hide BlocksFrom;
    hide ItemsOf;
    hide Level;
    hide SameBut;
    SlotOfReading(text, i);
    var b, outer := Reading(text).value[i], OuterOf(text).value;
    var p, old_, rest := text[..b.open], text[b.open + 1..b.close], text[b.close + 1..];
    var x, y := old_ + "}" + rest, inside + "}" + rest;
    assert text == p + "{" + x;
    OuterStops(p, x, y);
    InsideCloses(p, old_, rest);
    InsideCloses(p, inside, rest);
    var end := ClosingAt(text, outer).value;
    var end' := EndMoves(p, old_, inside, rest, outer);
    RewritesSlot(p, old_, inside, rest, end, end');
    BlocksRewritten(p, x, y, b.close, |p| + 1 + |inside|, outer + 1, false, end, end', i);
  }

  lemma EndMoves(p: string, old_: string, inside: string, rest: string, outer: nat) returns (end': nat)
    requires outer < |p| && Level(old_, 0) == Some(0) && Level(inside, 0) == Some(0)
    requires var end := ClosingAt(p + "{" + (old_ + "}" + rest), outer); end.Some? && end.value > |p|
    ensures ClosingAt(p + "{" + (inside + "}" + rest), outer) == Some(end')
    ensures var end := ClosingAt(p + "{" + (old_ + "}" + rest), outer).value;
            end > |p| + 1 + |old_| && end - |old_| == end' - |inside|
  {
    hide Level;
    var depth := OuterCloses(p, old_, rest, outer);
    ClosesOver(p[outer + 1..], inside, rest, depth);
    var v := p + "{" + (inside + "}" + rest);
    assert v[outer + 1..] == p[outer + 1..] + ("{" + inside + "}" + rest);
    end' := ClosingAt(v, outer).value;
  }

  lemma RewritesSlot(p: string, old_: string, inside: string, rest: string, end: nat, end': nat)
    requires Level(old_, 0) == Some(0) && Level(inside, 0) == Some(0)
    requires end > |p| + 1 + |old_| && end - |old_| == end' - |inside|
    ensures Rewrites(p, old_ + "}" + rest, inside + "}" + rest, |p| + 1 + |old_|, |p| + 1 + |inside|, end, end')
  {
    hide Level;
    hide ClosingAt;
    InsideCloses(p, old_, rest);
    InsideCloses(p, inside, rest);
  }

  /** A name the source accepts for a provider: lower-case letters, digits and hyphens. */
  predicate IsProviderName(s: string) {
    s != "" && forall i :: 0 <= i < |s| ==> 'a' <= s[i] <= 'z' || '0' <= s[i] <= '9' || s[i] == '-'
  }

  /** Plain text of an SDK's name. */
  predicate IsPackageName(s: string) { forall i :: 0 <= i < |s| ==> s[i] !in {'{', '}', ',', '\'', ':', '\n'} }

  lemma {:induction false} PlainScans(s: string, depth: nat)
    requires forall i :: 0 <= i < |s| ==> s[i] !in {'{', '}', ','}
    ensures Scan(s, depth) == Some(depth)
    decreases |s|
  {
    if s != [] {
      assert s[0] !in {'{', '}', ','};
      PlainScans(s[1..], depth);
    }
  }

  lemma AddedIsClean(provider: string, sdk: Option<string>)
    requires IsProviderName(provider) && (sdk.Some? ==> IsPackageName(sdk.value))
    ensures Clean(AddedItem(provider, sdk))
  {
    var front := KeyText(provider) + ": ";
    PlainScans(front, 0);
    SdkScans(sdk);
    BracedScans(SdkText(sdk));
    ScanOfSum(front, "{" + SdkText(sdk) + "}", 0);
    AddedIsTrimmed(provider, sdk);
  }

  lemma SdkScans(sdk: Option<string>)
    requires sdk.Some? ==> IsPackageName(sdk.value)
    ensures Scan(SdkText(sdk), 1) == Some(1)
  {
    if sdk.Some? {
      PlainScans(" sdk: '", 1);
      PlainScans(sdk.value, 1);
      PlainScans("' ", 1);
      ScanOfSum(" sdk: '" + sdk.value, "' ", 1);
      ScanOfSum(" sdk: '", sdk.value, 1);
    }
  }

  lemma BracedScans(text: string)
    requires Scan(text, 1) == Some(1)
    ensures Scan("{" + text + "}", 0) == Some(0)
  {
    ScanOfSum("{" + text, "}", 0);
    ScanOfSum("{", text, 0);
  }

  lemma AddedIsTrimmed(provider: string, sdk: Option<string>)
    requires IsProviderName(provider)
    ensures Trim(AddedItem(provider, sdk)) == AddedItem(provider, sdk)
  {
    var item := AddedItem(provider, sdk);
    assert !IsBlank(item[0]) && item[|item| - 1] == '}';
    assert TrimStart(item) == item;
  }

  lemma {:induction false} FirstColon(front: string, rest: string)
    requires ':' !in front
    ensures IndexOf(front + ":" + rest, ":") == Some(|front|)
    decreases |front|
  {
    var s := front + ":" + rest;
    if front == [] {
      assert s[..1] == ":";
    } else {
      assert s[0] == front[0] && s[1..] == front[1..] + ":" + rest;
      FirstColon(front[1..], rest);
    }
  }

  /** The item added is read as its provider, and as a package's. */
  lemma AddedIsRead(provider: string, sdk: Option<string>)
    requires IsProviderName(provider)
    ensures ProviderOf(AddedItem(provider, sdk)) == provider && !IsBuiltIn(AddedItem(provider, sdk))
  {
    var key, item := KeyText(provider), AddedItem(provider, sdk);
    var rest := " " + ("{" + SdkText(sdk) + "}");
    assert item == key + ":" + rest;
    FirstColon(key, rest);
    assert item[..|key|] == key;
    KeyIsUnquoted(provider);
    assert item[|item| - 1] == '}';
    assert |item| >= 7 ==> item[|item| - 7..][6] == '}';
  }

  lemma KeyIsUnquoted(provider: string)
    requires IsProviderName(provider)
    ensures Unquoted(Trim(KeyText(provider))) == provider
  {
    var key := KeyText(provider);
    assert !IsBlank(key[0]) && !IsBlank(key[|key| - 1]);
    assert TrimStart(key) == key;
    if IsPlainKey(provider) {
      assert key[0] != '\'' && key[|key| - 1] != '\'';
    } else {
      assert key[1..] == provider + "'";
    }
  }

  // -------------------------------------------------------------------------------------------------------------
  // Keys
  // -------------------------------------------------------------------------------------------------------------

  /** Letters that a key is read with as they are. */
  predicate IsKey(key: string) { key != "" && forall i :: 0 <= i < |key| ==> !IsBlank(key[i]) && key[i] !in {':', '\''} }

  lemma PlainIsUnquoted(key: string)
    requires IsKey(key)
    ensures Unquoted(Trim(key)) == key && Unquoted(Trim("'" + key + "'")) == key
  {
    var quoted := "'" + key + "'";
    assert !IsBlank(key[0]) && !IsBlank(key[|key| - 1]) && key[0] != '\'' && key[|key| - 1] != '\'';
    assert TrimStart(key) == key && TrimStart(quoted) == quoted && TrimEnd(key) == key;
    assert !IsBlank('\'') && quoted[|quoted| - 1] == '\'' && TrimEnd(quoted) == quoted;
    assert quoted[1..] == key + "'";
  }

  /** A key is read as it is, or without its quotes; one with no colon behind it loses its last letter. */
  lemma ProviderIsTheKey(key: string, rest: string)
    requires IsKey(key)
    ensures ProviderOf(key + ":" + rest) == key && ProviderOf("'" + key + "'" + ":" + rest) == key
    ensures |key| > 1 ==> ProviderOf(key) == key[..|key| - 1]
  {
    var quoted := "'" + key + "'";
    assert ':' !in key && ':' !in quoted;
    FirstColon(key, rest);
    FirstColon(quoted, rest);
    assert (key + ":" + rest)[..|key|] == key && (quoted + ":" + rest)[..|quoted|] == quoted;
    PlainIsUnquoted(key);
    NoColon(key);
    if |key| > 1 {
      PlainIsUnquoted(key[..|key| - 1]);
    }
    hide IndexOf;
    hide Unquoted;
    hide Trim;
  }

  lemma {:induction false} NoColon(text: string)
    requires ':' !in text
    ensures IndexOf(text, ":").None?
    decreases |text|
  {
    if text != [] {
      assert text[0] in text;
      NoColon(text[1..]);
    }
  }

  /** `builtIn` at the end, behind a colon and blanks or none. */
  lemma BuiltInExactly(item: string)
    ensures IsBuiltIn(item) <==> exists front, blanks :: Blank(blanks) && item == front + ":" + blanks + "builtIn"
  {
    if IsBuiltIn(item) {
      var before := item[..|item| - 7];
      var blanks := TrimEndSplits(before);
      var trimmed := TrimEnd(before);
      var front := trimmed[..|trimmed| - 1];
      assert trimmed == front + ":";
      assert item == before + "builtIn";
      assert item == front + ":" + blanks + "builtIn";
    }
    if front, blanks :| Blank(blanks) && item == front + ":" + blanks + "builtIn" {
      assert item[..|item| - 7] == (front + ":") + blanks;
      TrimEndDrops(front + ":", blanks);
      assert !IsBlank(':') && TrimEnd(front + ":") == front + ":";
    }
  }

  /** A provider's key stands without quotes exactly when it starts with a letter and has no hyphen. */
  lemma KeyIsWritten(provider: string)
    requires IsProviderName(provider)
    ensures KeyText(provider)
         == if 'a' <= provider[0] <= 'z' && '-' !in provider then provider else "'" + provider + "'"
  {
    if IsPlainKey(provider) {
      assert forall i :: 0 <= i < |provider| ==> provider[i] != '-';
    } else if '-' !in provider {
      assert forall i :: 0 <= i < |provider| ==> provider[i] in provider;
    }
  }

  /** The new item as it stands in the text. */
  lemma AddedIsWritten(provider: string, sdk: Option<string>)
    requires IsProviderName(provider)
    ensures var key := if 'a' <= provider[0] <= 'z' && '-' !in provider then provider else "'" + provider + "'";
            AddedItem(provider, sdk) == key + (if sdk.None? then ": {}" else ": { sdk: '" + sdk.value + "' }")
  {
    hide KeyText;
    KeyIsWritten(provider);
    if sdk.Some? {
      assert ": " + ("{" + (" sdk: '" + sdk.value + "' ") + "}") == ": { sdk: '" + sdk.value + "' }";
    }
  }

  /** Of several slots of one name the last is edited. */
  lemma {:induction false} LastNamedIsLast(blocks: seq<Block>, key: string)
    ensures var i := LastNamed(blocks, key);
            forall k :: (if i.Some? then i.value < k else 0 <= k) && k < |blocks| ==> blocks[k].name != key
    decreases |blocks|
  {
    if blocks != [] && blocks[|blocks| - 1].name != key {
      LastNamedIsLast(blocks[..|blocks| - 1], key);
    }
  }

  // -------------------------------------------------------------------------------------------------------------
  // Which slots are read
  // -------------------------------------------------------------------------------------------------------------

  predicate IsLetterOrDigit(c: char) { 'a' <= c <= 'z' || 'A' <= c <= 'Z' || '0' <= c <= '9' || c == '_' }

  /** The text starts with `indent` spaces, a name of `name` letters, digits or underscores, and `: {`. */
  ghost predicate IsHead(s: string, indent: nat, name: nat) {
    && name > 0 && indent + name + 2 < |s|
    && (forall i :: 0 <= i < indent ==> s[i] == ' ')
    && (forall i :: indent <= i < indent + name ==> IsLetterOrDigit(s[i]))
    && s[indent + name] == ':' && s[indent + name + 1] == ' ' && s[indent + name + 2] == '{'
  }

  lemma {:induction false} SpacesAre(s: string, n: nat)
    requires n < |s| && s[n] != ' ' && forall i :: 0 <= i < n ==> s[i] == ' '
    ensures Spaces(s) == n
    decreases n
  {
    if n > 0 {
      SpacesAre(s[1..], n - 1);
    }
  }

  lemma {:induction false} WordsAre(s: string, n: nat)
    requires n < |s| && !IsWord(s[n]) && forall i :: 0 <= i < n ==> IsWord(s[i])
    ensures Words(s) == n
    decreases n
  {
    if n > 0 {
      WordsAre(s[1..], n - 1);
    }
  }

  lemma HeadExactly(s: string, indent: nat, name: nat)
    ensures HeadIn(s) == Some(Head(indent, name)) <==> IsHead(s, indent, name)
  {
    hide Spaces;
    hide Words;
    var words := s[Spaces(s)..];
    assert forall i :: 0 <= i < Words(words) ==> words[i] == s[Spaces(s) + i];
    if IsHead(s, indent, name) {
      SpacesAre(s, indent);
      WordsAre(s[indent..], name);
    }
  }

  /** The line that starts at `p` starts with a head. */
  ghost predicate HeadAt(text: string, p: int) { 0 < p <= |text| && IsLineEnd(text[p - 1]) && HeadIn(text[p..]).Some? }

  /** Not at the front, since no line starts there. */
  lemma {:induction false} NextHeadIsFirst(s: string, lineStart: bool)
    ensures var q := NextHead(s, lineStart);
            && (q.Some? ==> (q.value == 0 && lineStart && HeadIn(s).Some?) || HeadAt(s, q.value))
            && (forall p :: 0 < p <= |s| && (q.Some? ==> p < q.value) ==> !HeadAt(s, p))
    decreases |s|
  {
    hide HeadIn;
    NoHeadInNothing();
    if s != [] && lineStart && HeadIn(s).Some? {
      FirstStartsALine(s, lineStart);
    } else if s != [] {
      var rest, starts := s[1..], IsLineEnd(s[0]);
      NextHeadIsFirst(rest, starts);
      NextHeadUnfolds(s, lineStart);
      if starts && HeadIn(rest).Some? {
        FirstStartsALine(rest, starts);
      }
      forall p | 0 < p <= |s|
        ensures HeadAt(s, p) <==> (p == 1 && starts && HeadIn(rest).Some?) || HeadAt(rest, p - 1)
      {
        assert rest[p - 1..] == s[p..];
      }
    }
  }

  lemma NoHeadInNothing()
    ensures HeadIn("").None?
  {}

  lemma FirstStartsALine(s: string, lineStart: bool)
    requires lineStart && HeadIn(s).Some?
    ensures NextHead(s, lineStart) == Some(0)
  {
    hide HeadIn;
    NoHeadInNothing();
  }

  lemma HeadFromIsFirst(text: string, from: nat)
    requires from <= |text|
    ensures var m := HeadFrom(text, from, false);
            && (m.Some? ==> m.value.start > from && HeadAt(text, m.value.start)
                            && HeadIn(text[m.value.start..])
                               == Some(Head(m.value.name - m.value.start, m.value.open - 2 - m.value.name)))
            && (forall p :: from < p <= |text| && (m.Some? ==> p < m.value.start) ==> !HeadAt(text, p))
  {
    hide HeadIn;
    hide HeadFrom;
    hide NextHead;
    PlaceHead(text, from, false);
    var s := text[from..];
    NextHeadIsFirst(s, false);
    forall p | from < p <= |text|
      ensures HeadAt(text, p) <==> HeadAt(s, p - from)
    {
      assert s[p - from..] == text[p..] && s[p - from - 1] == text[p - 1];
    }
  }

  /** Where a slot's line starts. */
  function StartOf(b: Block): int { b.open - 2 - |b.name| - |b.indent| }

  /** A slot starts there, or has the place between its braces. */
  ghost predicate Covers(bs: seq<Block>, p: int) {
    exists k :: 0 <= k < |bs| && (p == StartOf(bs[k]) || bs[k].open < p <= bs[k].close)
  }

  /** The slot stands where a line starts with its head, before `end`. */
  ghost predicate IsSlotAt(text: string, b: Block, end: nat) {
    && 0 <= StartOf(b) < end && HeadAt(text, StartOf(b)) && HeadIn(text[StartOf(b)..]) == Some(Head(|b.indent|, |b.name|))
    && StartOf(b) + |b.indent| + |b.name| <= |text|
    && b.name == text[StartOf(b) + |b.indent|..StartOf(b) + |b.indent| + |b.name|]
  }

  /** No line starts inside a head, or at a brace that closes. */
  lemma HeadIsOneLine(text: string, m: Place, p: int)
    requires m.start <= m.name && m.name + 2 <= m.open && m.start <= |text|
    requires HeadIn(text[m.start..]) == Some(Head(m.name - m.start, m.open - 2 - m.name))
    ensures m.start < p <= m.open ==> !HeadAt(text, p)
  {
    hide HeadIn;
    HeadExactly(text[m.start..], m.name - m.start, m.open - 2 - m.name);
    if m.start < p <= m.open {
      assert text[m.start..][p - 1 - m.start] == text[p - 1];
    }
  }

  lemma {:induction false} SlotsAreHeads(text: string, from: nat, end: nat)
    requires from <= |text| && BlocksFrom(text, from, false, end).Some?
    ensures var bs := BlocksFrom(text, from, false, end).value;
            && (forall k :: 0 <= k < |bs| ==> from < StartOf(bs[k]) && IsSlotAt(text, bs[k], end))
            && (forall p :: from < p < end && p <= |text| && HeadAt(text, p) ==> Covers(bs, p))
    decreases |text| - from
  {
    hide HeadIn;
    hide HeadFrom;
    hide HeadAt;
    hide ClosingAt;
    hide BlocksFrom;
    hide BlockAt;
    hide IsSlotAt;
    hide Covers;
    hide StartOf;
    BlocksUnfold(text, from, false, end);
    HeadFromIsFirst(text, from);
    var m := HeadFrom(text, from, false);
    if m.Some? && m.value.start < end {
      var close := ClosingAt(text, m.value.open).value;
      ClosingIsBrace(text, m.value.open);
      SlotsAreHeads(text, close + 1, end);
      var bs, rest := BlocksFrom(text, from, false, end).value, BlocksFrom(text, close + 1, false, end).value;
      var b := BlockAt(text, m.value, close);
      FirstIsSlot(text, m.value, close, end);
      BraceEndsNoLine(text, close);
      assert bs == [b] + rest;
      forall k | 0 <= k < |bs|
        ensures from < StartOf(bs[k]) && IsSlotAt(text, bs[k], end)
      {
        assert k > 0 ==> bs[k] == rest[k - 1];
      }
      forall p | from < p < end && p <= |text| && HeadAt(text, p)
        ensures Covers(bs, p)
      {
        HeadIsOneLine(text, m.value, p);
        assert p < m.value.start ==> !HeadAt(text, p);
        CoversMore(text, m.value, close, rest, p);
      }
    }
  }

  lemma BraceEndsNoLine(text: string, close: nat)
    requires close < |text| && text[close] == '}'
    ensures !HeadAt(text, close + 1)
  {}

  lemma FirstIsSlot(text: string, m: Place, close: nat, end: nat)
    requires m.start <= m.name && m.name + 2 <= m.open < close <= |text| && 0 < m.start < end && HeadAt(text, m.start)
    requires HeadIn(text[m.start..]) == Some(Head(m.name - m.start, m.open - 2 - m.name))
    ensures StartOf(BlockAt(text, m, close)) == m.start
    ensures IsSlotAt(text, BlockAt(text, m, close), end)
  {
    hide HeadIn;
    hide ItemsOf;
    hide HeadAt;
  }

  lemma CoversMore(text: string, m: Place, close: nat, rest: seq<Block>, p: int)
    requires m.start <= m.name && m.name + 2 <= m.open < close <= |text|
    ensures p == m.start || m.open < p <= close || Covers(rest, p) ==> Covers([BlockAt(text, m, close)] + rest, p)
  {
    hide ItemsOf;
    var bs := [BlockAt(text, m, close)] + rest;
    assert bs[0] == BlockAt(text, m, close) && StartOf(bs[0]) == m.start;
    if k :| 0 <= k < |rest| && (p == StartOf(rest[k]) || rest[k].open < p <= rest[k].close) {
      assert bs[k + 1] == rest[k];
    }
  }

  /**
   * Main result: the slots read are the lines inside the catalogue's braces that start with a head, but for those that
   * stand inside a slot: each slot is such a line, and each such line is a slot.
   */
  lemma SlotsExactly(text: string, p: int)
    requires Reading(text).Some?
    ensures OuterOf(text).Some? && ClosingAt(text, OuterOf(text).value).Some?
    ensures var bs, outer, end := Reading(text).value, OuterOf(text).value, ClosingAt(text, OuterOf(text).value).value;
            && (forall k :: 0 <= k < |bs| ==> outer + 1 < StartOf(bs[k]) && IsSlotAt(text, bs[k], end))
            && (outer + 1 < p < end && HeadAt(text, p) ==> Covers(bs, p))
  {
    hide OuterOf;
    hide ClosingAt;
    hide BlocksFrom;
    hide HeadIn;
    ClosingIsBrace(text, OuterOf(text).value);
    SlotsAreHeads(text, OuterOf(text).value + 1, ClosingAt(text, OuterOf(text).value).value);
  }

  // -------------------------------------------------------------------------------------------------------------
  // What an item says of its provider
  // -------------------------------------------------------------------------------------------------------------

  /** What a catalogue holds of a provider. */
  datatype CatalogueEntry = BuiltIn | Package(sdk: Option<string>)

  /** The text in quotes at the front, behind blanks; none without its closing quote, or when it is empty. */
  function QuotedAt(s: string): Option<string> {
    var rest := TrimStart(s);
    if rest == "" || rest[0] != '\'' then None
    else
      var n := IndexOf(rest[1..], "'");
      IndexFinds(rest[1..], "'");
      if n.None? || n.value == 0 then None else Some(rest[1..][..n.value])
  }

  /** `/\bsdk:\s*'([^']+)'/`, its first match. */
  function SdkFrom(s: string, afterWord: bool): Option<string> {
    if s == "" then None
    else if !afterWord && "sdk:" <= s && QuotedAt(s[4..]).Some? then QuotedAt(s[4..])
    else SdkFrom(s[1..], IsWord(s[0]))
  }

  function SdkOf(item: string): Option<string> { SdkFrom(item, false) }

  function EntryOf(item: string): CatalogueEntry { if IsBuiltIn(item) then BuiltIn else Package(SdkOf(item)) }

  lemma SdkStep(c: char, s: string, afterWord: bool)
    requires c != 's' || afterWord || !("sdk:" <= [c] + s) || QuotedAt(([c] + s)[4..]).None?
    ensures SdkFrom([c] + s, afterWord) == SdkFrom(s, IsWord(c))
  {
    assert ([c] + s)[1..] == s && ([c] + s)[0] == c;
    assert "sdk:"[0] == 's';
  }

  /** A key is no SDK, even one that ends in `sdk`: what follows its colon is no quote. */
  lemma {:induction false} KeyHasNoSdk(key: string, tail: string, afterWord: bool)
    requires ':' !in key && QuotedAt(tail).None?
    ensures SdkFrom(key + (":" + tail), afterWord) == SdkFrom(tail, false)
    decreases |key|
  {
    hide QuotedAt;
    hide SdkFrom;
    var s := key + (":" + tail);
    if key == "" {
      assert s == [':'] + tail;
      SdkStep(':', tail, afterWord);
    } else {
      var rest := key[1..] + (":" + tail);
      assert s == [key[0]] + rest;
      if "sdk:" <= s {
        ColonStands(key, tail);
      }
      SdkStep(key[0], rest, afterWord);
      KeyHasNoSdk(key[1..], tail, IsWord(key[0]));
    }
  }

  lemma ColonStands(key: string, tail: string)
    requires ':' !in key && "sdk:" <= key + (":" + tail)
    ensures (key + (":" + tail))[4..] == tail
  {
    var s := key + (":" + tail);
    assert s[0] == "sdk:"[0] && s[1] == "sdk:"[1] && s[2] == "sdk:"[2] && s[3] == "sdk:"[3];
    assert s[|key|] == ':' && forall j :: 0 <= j < |key| ==> s[j] == key[j] && key[j] in key;
    assert |key| == 3;
  }

  lemma BraceIsNoQuote(s: string)
    ensures QuotedAt(" {" + s) == None
  {
    var t := " {" + s;
    assert t[0] == ' ' && t[1..] == "{" + s && ("{" + s)[0] == '{';
    assert TrimStart(t) == TrimStart("{" + s) == "{" + s;
  }

  lemma QuotedIs(x: string, rest: string)
    requires '\'' !in x
    ensures QuotedAt(" '" + x + "'" + rest) == if x == "" then None else Some(x)
  {
    var t := " '" + x + "'" + rest;
    var q := "'" + x + "'" + rest;
    assert t[0] == ' ' && t[1..] == q && q[0] == '\'';
    assert TrimStart(t) == TrimStart(q) == q;
    assert q[1..] == x + "'" + rest;
    FirstFound(x, "'", rest);
    assert (x + "'" + rest)[..|x|] == x;
  }

  /** Main result: the item added says of its provider just the SDK that was given. */
  lemma AddedSdkIsRead(provider: string, sdk: Option<string>)
    requires IsProviderName(provider) && (sdk.Some? ==> IsPackageName(sdk.value))
    ensures SdkOf(AddedItem(provider, sdk)) == if sdk == Some("") then None else sdk
    ensures EntryOf(AddedItem(provider, sdk)) == Package(if sdk == Some("") then None else sdk)
  {
    hide QuotedAt;
    hide SdkFrom;
    var key, tail := KeyText(provider), " " + ("{" + SdkText(sdk) + "}");
    assert AddedItem(provider, sdk) == key + (":" + tail);
    BraceIsNoQuote(SdkText(sdk) + "}");
    assert tail == " {" + (SdkText(sdk) + "}");
    KeyHasNoSdk(key, tail, false);
    SdkInBraces(sdk);
    AddedIsRead(provider, sdk);
  }

  lemma SdkInBraces(sdk: Option<string>)
    requires sdk.Some? ==> IsPackageName(sdk.value)
    ensures SdkFrom(" " + ("{" + SdkText(sdk) + "}"), false) == if sdk == Some("") then None else sdk
  {
    hide QuotedAt;
    hide SdkFrom;
    var text := SdkText(sdk) + "}";
    assert " " + ("{" + SdkText(sdk) + "}") == [' '] + (['{'] + text);
    SdkStep(' ', ['{'] + text, false);
    SdkStep('{', text, false);
    if sdk.None? {
      assert text == ['}'] + "";
      SdkStep('}', "", false);
      NoSdkInNothing(false);
    } else {
      SdkBehindBlank(sdk.value);
    }
  }

  lemma NoSdkInNothing(afterWord: bool)
    ensures SdkFrom("", afterWord) == None
  {}

  lemma SdkBehindBlank(x: string)
    requires IsPackageName(x)
    ensures SdkFrom(SdkText(Some(x)) + "}", false) == if x == "" then None else Some(x)
  {
    hide QuotedAt;
    hide SdkFrom;
    var quoted := " '" + x + "'" + " }";
    var body := "sdk:" + quoted;
    assert SdkText(Some(x)) + "}" == [' '] + body;
    SdkStep(' ', body, false);
    assert '\'' !in x;
    QuotedIs(x, " }");
    if x == "" {
      NoSdkLeft(quoted);
    } else {
      SdkMatches(quoted);
    }
  }

  lemma SdkMatches(quoted: string)
    requires QuotedAt(quoted).Some?
    ensures SdkFrom("sdk:" + quoted, false) == QuotedAt(quoted)
  {
    hide QuotedAt;
    assert ("sdk:" + quoted)[4..] == quoted;
  }

  lemma NoSdkLeft(quoted: string)
    requires quoted == " '" + "" + "'" + " }" && QuotedAt(quoted).None?
    ensures SdkFrom("sdk:" + quoted, false) == None
  {
    hide QuotedAt;
    hide SdkFrom;
    assert "sdk:" + quoted == "sdk" + (":" + quoted);
    KeyHasNoSdk("sdk", quoted, false);
    assert quoted == [' '] + (['\''] + (['\''] + ([' '] + (['}'] + ""))));
    SdkStep(' ', ['\''] + (['\''] + ([' '] + (['}'] + ""))), false);
    SdkStep('\'', ['\''] + ([' '] + (['}'] + "")), false);
    SdkStep('\'', [' '] + (['}'] + ""), false);
    SdkStep(' ', ['}'] + "", false);
    SdkStep('}', "", false);
    NoSdkInNothing(false);
  }

  lemma NextAreClean(text: string, i: nat, provider: string, sdk: Option<string>, locale: Locale)
    requires Reading(text).Some? && i < |Reading(text).value|
    requires IsProviderName(provider) && (sdk.Some? ==> IsPackageName(sdk.value))
    ensures forall it :: it in NextItems(Reading(text).value[i].items, provider, sdk, locale) ==> Clean(it)
  {
    hide Clean;
    hide AddedItem;
    hide Reading;
    hide ItemsFrom;
    hide Level;
    hide PlaceFor;
    hide ClosingAt;
    hide OuterOf;
    hide Blank;
    SlotOfReading(text, i);
    var b := Reading(text).value[i];
    ItemsAreClean(text[b.open + 1..b.close], "", 0);
    AddedIsClean(provider, sdk);
  }

  /** What `after` reads as: the slots of `bs` with all their items, and slot `i` with those of `next`, the last if `kept`. */
  ghost predicate ReadsBack(after: Option<string>, bs: seq<Block>, i: nat, next: seq<string>, kept: bool) {
    && after.Some? && Reading(after.value).Some? && i < |Reading(after.value).value|
    && SameBut(bs, Reading(after.value).value, i, Reading(after.value).value[i].items)
    && next != [] && Reading(after.value).value[i].items == if kept then next else next[..|next| - 1]
  }

  /**
   * Main result: read again, the edited catalogue has the same slots with the same items but for the slot edited, which
   * has its old items in order with the new one among them: exactly unless it is written on one line and its last item is
   * empty.
   */
  lemma EditIsReadBackExactly(text: string, key: string, provider: string, sdk: Option<string>, locale: Locale,
                              bs: seq<Block>, i: nat)
    requires IsProviderName(provider) && (sdk.Some? ==> IsPackageName(sdk.value))
    ensures Reading(text) == Some(bs) && LastNamed(bs, key) == Some(i) ==>
              var next := NextItems(bs[i].items, provider, sdk, locale);
              ReadsBack(CatalogueEdit(text, key, provider, sdk, locale), bs, i, next,
                        next[|next| - 1] != "" || OpensALine(text, bs[i], next))
  {
    hide Reading;
    hide Clean;
    hide Level;
    hide ItemsOf;
    hide Blank;
    hide OneLineInside;
    hide MultiLineInside;
    hide LastNamed;
    hide PlaceFor;
    hide OpensALine;
    hide AddedItem;
    if Reading(text) == Some(bs) && LastNamed(bs, key) == Some(i) {
      var next := NextItems(bs[i].items, provider, sdk, locale);
      SlotFacts(text, i);
      NextAreClean(text, i, provider, sdk, locale);
      OneLineReads(next);
      MultiLineReads(next, bs[i].indent);
      ReplacedIsReadBack(text, i, InsideOf(text, bs[i], next));
    }
  }

  /**
   * Main result: read again, the edited slot has at the provider's place an item that names it, as a package with the SDK
   * given; before it the items that were before it, and behind it those that were behind, but for an empty last one lost.
   */
  lemma EditedEntryIsRead(text: string, key: string, provider: string, sdk: Option<string>, locale: Locale,
                          bs: seq<Block>, i: nat)
    requires IsProviderName(provider) && (sdk.Some? ==> IsPackageName(sdk.value) && sdk.value != "")
    requires Reading(text) == Some(bs) && LastNamed(bs, key) == Some(i)
    ensures var after := CatalogueEdit(text, key, provider, sdk, locale);
            var old_ := bs[i].items;
            var at := PlaceFor(old_, provider, locale);
            && after.Some? && Reading(after.value).Some? && i < |Reading(after.value).value|
            && var items := Reading(after.value).value[i].items;
               && at < |items| && ProviderOf(items[at]) == provider && EntryOf(items[at]) == Package(sdk)
               && items[..at] == old_[..at] && items[at + 1..] <= old_[at..]
               && |old_| <= |items| <= |old_| + 1 && (|items| == |old_| ==> old_[|old_| - 1] == "")
  {
    hide Reading;
    hide Clean;
    hide LastNamed;
    hide PlaceFor;
    hide OpensALine;
    hide AddedItem;
    hide ProviderOf;
    hide EntryOf;
    hide CatalogueEdit;
    hide OneLineInside;
    hide IsProviderName;
    hide IsPackageName;
    EditIsReadBackExactly(text, key, provider, sdk, locale, bs, i);
    AddedIsRead(provider, sdk);
    AddedSdkIsRead(provider, sdk);
    AddedIsClean(provider, sdk);
    AddedIsThere(provider, sdk);
    var old_, at := bs[i].items, PlaceFor(bs[i].items, provider, locale);
    var next := NextItems(old_, provider, sdk, locale);
    var items := Reading(CatalogueEdit(text, key, provider, sdk, locale).value).value[i].items;
    assert next[..at] == old_[..at] && next[at + 1..] == old_[at..] && next[at] == AddedItem(provider, sdk);
    assert at == |old_| ==> next[|next| - 1] == AddedItem(provider, sdk);
    assert at < |old_| ==> next[|next| - 1] == old_[|old_| - 1];
  }

  lemma AddedIsThere(provider: string, sdk: Option<string>)
    ensures AddedItem(provider, sdk) != ""
  {}

  lemma SlotFacts(text: string, i: nat)
    requires Reading(text).Some? && i < |Reading(text).value|
    ensures var b := Reading(text).value[i]; b.open < b.close < |text| && Blank(b.indent)
  {
    SlotOfReading(text, i);
  }

  // -------------------------------------------------------------------------------------------------------------
  // Order
  // -------------------------------------------------------------------------------------------------------------

  /** The package providers among the items are in order. */
  ghost predicate PackagesSorted(items: seq<string>, locale: Locale) {
    forall i, j :: 0 <= i < j < |items| && !IsBuiltIn(items[i]) && !IsBuiltIn(items[j]) ==>
      locale(ProviderOf(items[i]), ProviderOf(items[j])) <= 0
  }

  lemma {:induction false} PlaceForIsFirst(items: seq<string>, provider: string, locale: Locale)
    ensures var at := PlaceFor(items, provider, locale);
            && (forall k :: 0 <= k < at ==> IsBuiltIn(items[k]) || locale(ProviderOf(items[k]), provider) <= 0)
            && (at < |items| ==> !IsBuiltIn(items[at]) && locale(ProviderOf(items[at]), provider) > 0)
    decreases |items|
  {
    hide IsBuiltIn;
    hide ProviderOf;
    if items != [] {
      PlaceForIsFirst(items[1..], provider, locale);
    }
  }

  /** Main result: package providers that were in order stay in order, the new one among them. */
  lemma NextStaysSorted(items: seq<string>, provider: string, sdk: Option<string>, locale: Locale)
    requires IsLocale(locale) && IsProviderName(provider) && PackagesSorted(items, locale)
    ensures PackagesSorted(NextItems(items, provider, sdk, locale), locale)
  {
    hide PlaceFor;
    hide IsProviderName;
    hide IsBuiltIn;
    hide ProviderOf;
    hide AddedItem;
    AddedIsRead(provider, sdk);
    PlaceForIsFirst(items, provider, locale);
    var at, next := PlaceFor(items, provider, locale), NextItems(items, provider, sdk, locale);
    forall j | at <= j < |items| && !IsBuiltIn(items[j])
      ensures locale(provider, ProviderOf(items[j])) <= 0
    {
      assert locale(provider, ProviderOf(items[at])) <= 0;
      assert j > at ==> locale(ProviderOf(items[at]), ProviderOf(items[j])) <= 0;
    }
    assert forall k :: 0 <= k < |next| ==> next[k] == if k < at then items[k] else if k == at then next[at] else items[k - 1];
  }

  /** An item left empty, as between two commas, is lost when a provider put before it leaves it last on one line. */
  lemma EmptyItemOnOneLine(item: string, provider: string, sdk: Option<string>, locale: Locale)
    requires Clean(item) && item != "" && !IsBuiltIn(item) && locale(ProviderOf(item), provider) > 0
    requires IsProviderName(provider) && (sdk.Some? ==> IsPackageName(sdk.value))
    ensures ItemsOf(" " + item + "," + (" " + "" + "," + " ")) == [item, ""]
    ensures NextItems([item, ""], provider, sdk, locale) == [AddedItem(provider, sdk), item, ""]
    ensures ItemsOf(OneLineInside([AddedItem(provider, sdk), item, ""])) == [AddedItem(provider, sdk), item]
  {
    hide ItemsOf;
    hide OneLineInside;
    hide Clean;
    hide AddedItem;
    hide IsBuiltIn;
    hide ProviderOf;
    hide Level;
    AddedIsClean(provider, sdk);
    EmptyIsClean();
    OneLineReads([AddedItem(provider, sdk), item, ""]);
    ItemThenComma(" ", item, " " + "" + "," + " ");
    ItemThenComma(" ", "", " ");
    NothingBetween(" ");
  }

  lemma EmptyIsClean()
    ensures Clean("")
  {}

  // -------------------------------------------------------------------------------------------------------------
  // A catalogue as it is laid out
  // -------------------------------------------------------------------------------------------------------------

  /** A slot's name and what stands between its braces. */
  datatype Entry = Entry(name: string, inside: string)

  predicate IsEntry(e: Entry) {
    e.name != "" && (forall i :: 0 <= i < |e.name| ==> IsLetterOrDigit(e.name[i])) && Level(e.inside, 0) == Some(0)
  }

  function EntryText(e: Entry): string { "\n" + ("  " + e.name + ": {" + (e.inside + "}")) }

  /** Entry by entry, a comma behind each; `comma` is what stands before the first. */
  function EntriesText(entries: seq<Entry>, comma: string): string {
    if entries == [] then comma else comma + EntryText(entries[0]) + EntriesText(entries[1..], ",")
  }

  function CatalogueText(entries: seq<Entry>): string {
    "export const ADAPTER_CATALOGUE" + " " + "= {" + (EntriesText(entries, "") + "\n}\n")
  }

  lemma {:induction false} WordsToColon(name: string, rest: string)
    requires forall i :: 0 <= i < |name| ==> IsWord(name[i])
    ensures Words(name + ":" + rest) == |name|
    decreases |name|
  {
    var s := name + ":" + rest;
    if name == "" {
      assert s[0] == ':';
    } else {
      assert s[0] == name[0] && s[1..] == name[1..] + ":" + rest;
      WordsToColon(name[1..], rest);
    }
  }

  /** An entry's line, and what follows it. */
  function LineOf(e: Entry, rest: string): string { "  " + e.name + ": {" + (e.inside + "}" + rest) }

  /** The head of an entry. */
  lemma EntryHead(e: Entry, rest: string)
    requires IsEntry(e)
    ensures HeadIn(LineOf(e, rest)) == Some(Head(2, |e.name|))
  {
    hide Level;
    var s, tail := LineOf(e, rest), e.inside + "}" + rest;
    assert s == "  " + (e.name + ":" + (" {" + tail));
    assert s[0] == ' ' && s[1..][0] == ' ' && s[1..][1..] == s[2..] == e.name + ":" + (" {" + tail);
    assert s[2] == e.name[0] && e.name[0] != ' ';
    assert Spaces(s) == 1 + Spaces(s[1..]) == 2 + Spaces(s[2..]) == 2;
    WordsToColon(e.name, " {" + tail);
    var n := 2 + |e.name|;
    assert s[n] == ':' && s[n + 1] == ' ' && s[n + 2] == '{';
  }

  lemma NothingFollows(comma: string)
    requires comma == "" || comma == ","
    ensures NextHead(comma + "\n}\n", false) == None
  {
    assert "\n}\n"[1..] == "}\n" && "}\n"[1..] == "\n" && "\n"[1..] == "";
    assert HeadIn("}\n") == None;
    assert comma != "" ==> (comma + "\n}\n")[1..] == "\n}\n";
    assert comma == "" ==> comma + "\n}\n" == "\n}\n";
  }

  lemma HeadFollows(comma: string, line: string)
    requires (comma == "" || comma == ",") && HeadIn(line).Some?
    ensures NextHead(comma + "\n" + line, false) == Some(|comma| + 1)
  {
    hide HeadIn;
    hide NextHead;
    hide IsLineEnd;
    var s := "\n" + line;
    HeadOnLine(line);
    CommaBefore(comma, line, s);
    if comma != "" {
      BreakEndsLine();
      NextHeadSkips(',', s);
    }
  }

  lemma CommaBefore(comma: string, line: string, s: string)
    requires (comma == "" || comma == ",") && s == "\n" + line
    ensures comma + "\n" + line == if comma == "" then s else [','] + s
  {
    assert comma + "\n" + line == comma + s;
  }

  lemma HeadOnLine(line: string)
    requires HeadIn(line).Some?
    ensures NextHead("\n" + line, false) == Some(1)
  {
    hide HeadIn;
    hide NextHead;
    hide IsLineEnd;
    EmptyHasNoHead();
    BreakEndsLine();
    NextHeadUnfolds(line, true);
    NextHeadUnfolds("\n" + line, false);
    assert ("\n" + line)[1..] == line;
  }

  lemma NextHeadSkips(c: char, s: string)
    ensures !IsLineEnd(c) ==> NextHead([c] + s, false) == Plus(NextHead(s, false), 1)
  {
    hide NextHead;
    hide IsLineEnd;
    NextHeadUnfolds([c] + s, false);
    assert ([c] + s)[1..] == s;
  }

  lemma BreakEndsLine()
    ensures IsLineEnd('\n') && !IsLineEnd(',')
  {}

  lemma EmptyHasNoHead()
    ensures HeadIn("") == None
  {}

  /** One entry laid out is one slot. */
  lemma EntryIsRead(text: string, from: nat, comma: string, e: Entry, rest: string) returns (m: Place, close: nat)
    requires from <= |text| && text[from..] == comma + EntryText(e) + rest && (comma == "" || comma == ",") && IsEntry(e)
    ensures HeadFrom(text, from, false) == Some(m) && from < m.start == from + |comma| + 1
    ensures m.start <= m.name && m.name + 2 <= m.open < close < |text| && ClosingAt(text, m.open) == Some(close)
    ensures text[m.name..m.open - 2] == e.name && text[m.open + 1..close] == e.inside && text[close + 1..] == rest
    ensures close + 1 == from + |comma + EntryText(e)|
  {
    hide HeadFrom;
    hide Level;
    hide ClosingAt;
    hide EntryText;
    hide LineOf;
    hide IsEntry;
    EntryIsBalanced(e);
    LineFollows(text, from, comma, e, rest);
    EntryPlace(text, from, comma, e, rest);
    var start := from + |comma| + 1;
    var front := text[..start] + "  " + e.name + ": ";
    LinePlaces(text, start, e, rest);
    InsideCloses(front, e.inside, rest);
    m, close := Place(start, start + 2, start + |e.name| + 4), |front| + 1 + |e.inside|;
  }

  lemma EntryPlace(text: string, from: nat, comma: string, e: Entry, rest: string)
    requires from <= |text| && text[from..] == comma + "\n" + LineOf(e, rest) && (comma == "" || comma == ",") && IsEntry(e)
    requires from + |comma| + 1 <= |text| && text[from + |comma| + 1..] == LineOf(e, rest)
    ensures var start := from + |comma| + 1;
            HeadFrom(text, from, false) == Some(Place(start, start + 2, start + |e.name| + 4))
  {
    hide NextHead;
    hide HeadIn;
    hide HeadFrom;
    hide LineOf;
    hide IsEntry;
    EntryHead(e, rest);
    HeadFollows(comma, LineOf(e, rest));
    PlaceHead(text, from, false);
  }

  lemma EntryIsBalanced(e: Entry)
    requires IsEntry(e)
    ensures Level(e.inside, 0) == Some(0)
  {}

  lemma LineFollows(text: string, from: nat, comma: string, e: Entry, rest: string)
    requires from <= |text| && text[from..] == comma + EntryText(e) + rest
    ensures text[from..] == comma + "\n" + LineOf(e, rest)
    ensures from + |comma| + 1 <= |text| && text[from + |comma| + 1..] == LineOf(e, rest)
    ensures |comma + EntryText(e)| == |comma| + |e.name| + |e.inside| + 7
  {
    EntryLine(e, rest);
    assert comma + EntryText(e) + rest == comma + (EntryText(e) + rest);
    assert comma + "\n" + LineOf(e, rest) == comma + ("\n" + LineOf(e, rest));
    hide EntryText;
    SliceOfSlice(text, from, |comma| + 1);
    assert (comma + "\n" + LineOf(e, rest))[|comma| + 1..] == LineOf(e, rest);
  }

  lemma EntryLine(e: Entry, rest: string)
    ensures EntryText(e) + rest == "\n" + LineOf(e, rest)
    ensures |EntryText(e)| == |e.name| + |e.inside| + 7
  {
    assert e.inside + "}" + rest == (e.inside + "}") + rest;
  }

  lemma LinePlaces(text: string, start: nat, e: Entry, rest: string)
    requires start <= |text| && text[start..] == LineOf(e, rest)
    ensures text == text[..start] + "  " + e.name + ": " + "{" + (e.inside + "}" + rest)
    ensures start + 2 + |e.name| <= |text| && text[start + 2..start + 2 + |e.name|] == e.name
  {
    hide LineOf;
    LineParts(text[..start], e, rest);
    assert text == text[..start] + text[start..];
    SliceBehind(text, start, start + 2, start + 2 + |e.name|);
  }

  lemma LineParts(p: string, e: Entry, rest: string)
    ensures p + LineOf(e, rest) == p + "  " + e.name + ": " + "{" + (e.inside + "}" + rest)
    ensures |LineOf(e, rest)| >= 2 + |e.name| && LineOf(e, rest)[2..2 + |e.name|] == e.name
  {}

  /** From a brace on, the entries laid out are the slots read, with their items. */
  lemma {:induction false} EntriesAreRead(text: string, from: nat, comma: string, entries: seq<Entry>, end: nat)
    requires from <= |text| && text[from..] == EntriesText(entries, comma) + "\n}\n" && (comma == "" || comma == ",")
    requires end == from + |EntriesText(entries, comma)| + 1 && forall e :: e in entries ==> IsEntry(e)
    ensures BlocksFrom(text, from, false, end).Some?
    ensures AreEntries(BlocksFrom(text, from, false, end).value, entries)
    decreases |entries|
  {
    hide BlocksFrom;
    hide HeadFrom;
    hide ClosingAt;
    hide NextHead;
    hide ItemsOf;
    hide IsEntry;
    hide EntryText;
    hide AreEntries;
    BlocksUnfold(text, from, false, end);
    if entries == [] {
      PlaceHead(text, from, false);
      NothingFollows(comma);
      NoEntries();
    } else {
      assert entries == [entries[0]] + entries[1..];
      var rest := EntriesText(entries[1..], ",") + "\n}\n";
      assert text[from..] == comma + EntryText(entries[0]) + rest;
      var m, close := EntryIsRead(text, from, comma, entries[0], rest);
      EntriesAreRead(text, close + 1, ",", entries[1..], end);
      MoreEntries(BlockAt(text, m, close), BlocksFrom(text, close + 1, false, end).value, entries);
    }
  }

  lemma NoEntries()
    ensures AreEntries([], [])
  {}

  lemma MoreEntries(b: Block, bs: seq<Block>, entries: seq<Entry>)
    requires entries != [] && AreEntries(bs, entries[1..])
    requires b.name == entries[0].name && b.items == ItemsOf(entries[0].inside)
    ensures AreEntries([b] + bs, entries)
  {}

  /** The slots read are the entries, with the items between their braces. */
  ghost predicate AreEntries(bs: seq<Block>, entries: seq<Entry>) {
    |bs| == |entries| && forall i :: 0 <= i < |bs| ==> bs[i].name == entries[i].name && bs[i].items == ItemsOf(entries[i].inside)
  }

  lemma {:induction false} FirstFound(front: string, find: string, rest: string)
    requires find != "" && find[0] !in front
    ensures IndexOf(front + find + rest, find) == Some(|front|)
    decreases |front|
  {
    var s := front + find + rest;
    if front == "" {
      assert s == find + rest;
    } else {
      assert s[0] == front[0] && s[0] in front && s[1..] == front[1..] + find + rest;
      FirstFound(front[1..], find, rest);
    }
  }

  lemma {:induction false} EntriesLevel(entries: seq<Entry>, comma: string)
    requires (forall e :: e in entries ==> IsEntry(e)) && (comma == "" || comma == ",")
    ensures Level(EntriesText(entries, comma), 0) == Some(0)
    decreases |entries|
  {
    hide Level;
    CommaLevel(comma);
    if entries != [] {
      EntryLevel(entries[0]);
      EntriesLevel(entries[1..], ",");
      LevelOfSum(comma + EntryText(entries[0]), EntriesText(entries[1..], ","), 0);
      LevelOfSum(comma, EntryText(entries[0]), 0);
    }
  }

  lemma CommaLevel(comma: string)
    requires comma == "" || comma == ","
    ensures Level(comma, 0) == Some(0)
  {}

  lemma {:induction false} WordsLevel(name: string)
    requires forall i :: 0 <= i < |name| ==> IsWord(name[i])
    ensures Level(name, 0) == Some(0)
    decreases |name|
  {
    if name != "" {
      assert IsWord(name[0]);
      WordsLevel(name[1..]);
    }
  }

  lemma EntryLevel(e: Entry)
    requires IsEntry(e)
    ensures Level(EntryText(e), 0) == Some(0)
  {
    var front := "\n  " + e.name + ": ";
    WordsLevel(e.name);
    BracedLevel(e.inside, 0);
    LevelOfSum("\n  ", e.name, 0);
    LevelOfSum("\n  " + e.name, ": ", 0);
    LevelOfSum(front, "{" + e.inside + "}", 0);
    assert EntryText(e) == front + ("{" + e.inside + "}");
  }

  /** Main result: a catalogue laid out slot by slot is read back as those slots, in order, with their items. */
  lemma CatalogueIsReadBack(entries: seq<Entry>)
    requires forall e :: e in entries ==> IsEntry(e)
    ensures Reading(CatalogueText(entries)).Some? && AreEntries(Reading(CatalogueText(entries)).value, entries)
  {
    hide BlocksFrom;
    hide ClosingAt;
    hide IndexOf;
    hide EntriesText;
    hide AreEntries;
    hide IsEntry;
    var text, inside := CatalogueText(entries), EntriesText(entries, "");
    var p := DECLARATION + " " + "= ";
    OuterIsFound(inside + "\n}\n");
    EntriesLevel(entries, "");
    LineBreakLevel(inside);
    assert text == p + "{" + (inside + "\n" + "}" + "\n");
    InsideCloses(p, inside + "\n", "\n");
    assert text[|p| + 1..] == inside + "\n}\n";
    EntriesAreRead(text, |p| + 1, "", entries, |p| + 1 + |inside| + 1);
  }

  lemma LineBreakLevel(inside: string)
    requires Level(inside, 0) == Some(0)
    ensures Level(inside + "\n", 0) == Some(0)
  {
    LevelOfSum(inside, "\n", 0);
  }

  lemma OuterIsFound(rest: string)
    ensures OuterOf(DECLARATION + " " + "= {" + rest) == Some(|DECLARATION| + 3)
  {
    hide IndexOf;
    var text := DECLARATION + " " + "= {" + rest;
    NoEqualsInDeclaration();
    FirstFound("", DECLARATION, " " + "= {" + rest);
    FirstFound(DECLARATION + " ", "= {", rest);
    assert "" + DECLARATION + (" " + "= {" + rest) == text && text[0..] == text;
  }

  // -------------------------------------------------------------------------------------------------------------
  // How the edit is laid out
  // -------------------------------------------------------------------------------------------------------------

  /** An item a line: nothing on the first, the indent alone on the last, and each item between two spaces and a comma. */
  ghost predicate AreLines(lines: seq<string>, items: seq<string>, indent: string) {
    && |lines| == |items| + 2 && lines[0] == "" && lines[|items| + 1] == indent
    && forall k :: 0 <= k < |items| ==> lines[k + 1] == indent + "  " + items[k] + ","
  }

  lemma {:induction false} MultiLineIsLines(items: seq<string>, indent: string)
    requires items != [] && '\n' !in indent && forall it :: it in items ==> '\n' !in it
    ensures AreLines(SplitOn('\n', MultiLineInside(items, indent)), items, indent)
    decreases |items|
  {
    hide MultiLineInside;
    hide SplitOn;
    var rest, line := items[1..], indent + "  " + items[0] + ",";
    MultiLineUnfolds(items, indent);
    FirstSegment('\n', indent, "");
    if rest == [] {
      var whole := "" + "\n" + (line + "\n" + indent);
      assert MultiLineInside(items, indent) == whole;
      FirstSegment('\n', "", line + "\n" + indent);
      FirstSegment('\n', line, indent);
    } else {
      MultiLineIsLines(rest, indent);
      OpensWithALine(rest, indent);
      var tail := MultiLineInside(rest, indent)[1..];
      var whole := "" + "\n" + (line + "\n" + tail);
      assert MultiLineInside(items, indent) == whole;
      FirstSegment('\n', "", line + "\n" + tail);
      FirstSegment('\n', line, tail);
      FirstSegment('\n', "", tail);
      assert MultiLineInside(rest, indent) == "" + "\n" + tail;
    }
  }

  lemma OpensWithALine(items: seq<string>, indent: string)
    ensures MultiLineInside(items, indent) != "" && MultiLineInside(items, indent)[0] == '\n'
  {}

  lemma {:induction false} JoinedOnOneLine(items: seq<string>)
    requires forall it :: it in items ==> '\n' !in it
    ensures '\n' !in Join(items, ", ")
    decreases |items|
  {
    if |items| > 1 {
      JoinedOnOneLine(items[1..]);
    }
  }

  /**
   * Main result: the slot stays on one line exactly when it was and the line, with its comma, is no longer than a hundred
   * letters; else each item has a line of its own, indented by two more than the slot.
   */
  lemma EditedLayout(text: string, key: string, provider: string, sdk: Option<string>, locale: Locale, bs: seq<Block>, i: nat,
                     start: nat)
    requires IsProviderName(provider) && (sdk.Some? ==> IsPackageName(sdk.value))
    requires Reading(text) == Some(bs) && LastNamed(bs, key) == Some(i) && start <= bs[i].open < |text|
    requires (start == 0 || text[start - 1] == '\n') && '\n' !in text[start..bs[i].open]
    requires '\n' !in bs[i].indent && forall it :: it in bs[i].items ==> '\n' !in it
    ensures var b, next := bs[i], NextItems(bs[i].items, provider, sdk, locale);
            var after := CatalogueEdit(text, key, provider, sdk, locale);
            && after.Some? && b.open < |after.value| && b.close < |text| && ClosingAt(after.value, b.open).Some?
            && var end := ClosingAt(after.value, b.open).value;
               && b.open + 1 <= end < |after.value| && b.open <= b.close
               && after.value[..b.open + 1] == text[..b.open + 1] && after.value[end..] == text[b.close..]
               && var inside, fits := after.value[b.open + 1..end], b.open - start + |Join(next, ", ")| + 5 <= 100;
                  && ('\n' !in inside <==> '\n' !in text[b.open..b.close] && fits)
                  && ('\n' !in inside ==> inside == " " + Join(next, ", ") + " " && end - start + 2 <= 100)
                  && ('\n' in inside ==> AreLines(SplitOn('\n', inside), next, b.indent))
  {
    hide Reading;
    hide Clean;
    hide Level;
    hide ItemsOf;
    hide Blank;
    hide LastNamed;
    hide PlaceFor;
    hide AddedItem;
    hide ClosingAt;
    hide Join;
    hide SplitOn;
    hide InsideOf;
    hide AreLines;
    hide Replaced;
    hide NextItems;
    hide CatalogueEdit;
    hide IsProviderName;
    hide IsPackageName;
    var b, next := bs[i], NextItems(bs[i].items, provider, sdk, locale);
    SlotOfReading(text, i);
    NextOnOneLine(b.items, provider, sdk, locale);
    InsideIsLaidOut(text, b, next, start);
    InsideIsBalanced(text, i, provider, sdk, locale);
    LaidOut(text, b, InsideOf(text, b, next));
    EditReplaces(text, key, provider, sdk, locale, bs, i);
  }

  lemma EditReplaces(text: string, key: string, provider: string, sdk: Option<string>, locale: Locale, bs: seq<Block>, i: nat)
    requires Reading(text) == Some(bs) && LastNamed(bs, key) == Some(i)
    ensures var b := bs[i];
            && b.open < b.close < |text|
            && CatalogueEdit(text, key, provider, sdk, locale)
               == Some(Replaced(text, b, InsideOf(text, b, NextItems(b.items, provider, sdk, locale))))
  {
    hide Reading;
    hide LastNamed;
    hide InsideOf;
    hide NextItems;
    hide Replaced;
    hide ClosingAt;
    hide OuterOf;
    hide Level;
    hide ItemsOf;
    hide Blank;
    SlotOfReading(text, i);
  }

  lemma InsideIsBalanced(text: string, i: nat, provider: string, sdk: Option<string>, locale: Locale)
    requires IsProviderName(provider) && (sdk.Some? ==> IsPackageName(sdk.value))
    requires Reading(text).Some? && i < |Reading(text).value|
    ensures var b := Reading(text).value[i]; Level(InsideOf(text, b, NextItems(b.items, provider, sdk, locale)), 0) == Some(0)
  {
    hide Reading;
    hide Clean;
    hide Level;
    hide ItemsOf;
    hide Blank;
    hide OneLineInside;
    hide MultiLineInside;
    hide PlaceFor;
    hide AddedItem;
    hide OpensALine;
    var b := Reading(text).value[i];
    SlotFacts(text, i);
    NextAreClean(text, i, provider, sdk, locale);
    OneLineReads(NextItems(b.items, provider, sdk, locale));
    MultiLineReads(NextItems(b.items, provider, sdk, locale), b.indent);
  }

  lemma NextOnOneLine(items: seq<string>, provider: string, sdk: Option<string>, locale: Locale)
    requires IsProviderName(provider) && (sdk.Some? ==> IsPackageName(sdk.value)) && forall it :: it in items ==> '\n' !in it
    ensures var next := NextItems(items, provider, sdk, locale); next != [] && forall it :: it in next ==> '\n' !in it
  {
    hide AddedItem;
    hide PlaceFor;
    AddedOnOneLine(provider, sdk);
  }

  lemma InsideIsLaidOut(text: string, b: Block, next: seq<string>, start: nat)
    requires next != [] && start <= b.open <= b.close <= |text|
    requires (start == 0 || text[start - 1] == '\n') && '\n' !in text[start..b.open]
    requires '\n' !in b.indent && forall it :: it in next ==> '\n' !in it
    ensures var inside, fits := InsideOf(text, b, next), b.open - start + |Join(next, ", ")| + 5 <= 100;
            && ('\n' !in inside <==> '\n' !in text[b.open..b.close] && fits)
            && ('\n' !in inside ==> inside == " " + Join(next, ", ") + " " && b.open - start + |inside| + 3 <= 100)
            && ('\n' in inside ==> AreLines(SplitOn('\n', inside), next, b.indent))
  {
    hide Join;
    hide SplitOn;
    hide MultiLineInside;
    hide AreLines;
    hide LineStartOf;
    JoinedOnOneLine(next);
    MultiLineIsLines(next, b.indent);
    OpensWithALine(next, b.indent);
    LineStartIs(text, start, b.open);
  }

  /** The text around a slot's inside stays, and the slot closes where the new inside ends. */
  lemma LaidOut(text: string, b: Block, inside: string)
    requires b.open < b.close < |text| && text[b.open] == '{' && text[b.close] == '}' && Level(inside, 0) == Some(0)
    ensures var after, end := Replaced(text, b, inside), b.open + 1 + |inside|;
            && end < |after| && ClosingAt(after, b.open) == Some(end)
            && after[..b.open + 1] == text[..b.open + 1] && after[end..] == text[b.close..] && after[b.open + 1..end] == inside
  {
    hide Level;
    hide ClosingAt;
    InsideCloses(text[..b.open], inside, text[b.close + 1..]);
    assert text[..b.open + 1] == text[..b.open] + "{" && text[b.close..] == "}" + text[b.close + 1..];
  }

  lemma AddedOnOneLine(provider: string, sdk: Option<string>)
    requires IsProviderName(provider) && (sdk.Some? ==> IsPackageName(sdk.value))
    ensures '\n' !in AddedItem(provider, sdk)
  {
    assert '\n' !in provider && '\n' !in KeyText(provider) && '\n' !in SdkText(sdk);
  }

  // -------------------------------------------------------------------------------------------------------------
  // An edit that loses an item
  // -------------------------------------------------------------------------------------------------------------

  lemma {:induction false} LineStartIs(text: string, start: nat, i: nat)
    requires start <= i <= |text| && (start == 0 || text[start - 1] == '\n') && '\n' !in text[start..i]
    ensures LineStartOf(text, i) == start
    decreases i
  {
    if i > start {
      assert text[start..i][i - 1 - start] == text[i - 1];
      assert forall k :: 0 <= k < i - 1 - start ==> text[start..i - 1][k] == text[start..i][k];
      LineStartIs(text, start, i - 1);
    }
  }

  /** A catalogue of one slot: what is read, and where it stands. */
  lemma OneEntryIsRead(e: Entry) returns (b: Block)
    requires IsEntry(e)
    ensures Reading(CatalogueText([e])) == Some([b]) && b.name == e.name && b.items == ItemsOf(e.inside)
    ensures var text := CatalogueText([e]);
            && b.open < b.close < |text| && text[b.open..b.close] == "{" + e.inside
            && b.open - LineStartOf(text, b.open) == |e.name| + 4
  {
    hide BlocksFrom;
    hide ClosingAt;
    hide OuterOf;
    hide CatalogueText;
    hide IsEntry;
    hide EntryText;
    hide ItemsOf;
    hide LineStartOf;
    OneEntryCloses(e);
    b := OneEntryFrom(CatalogueText([e]), |DECLARATION| + 4, e, |DECLARATION| + 5 + |EntryText(e)| + 1);
  }

  lemma OneEntryText(e: Entry)
    ensures EntriesText([e], "") == EntryText(e) + ","
  {
    hide EntryText;
    assert [e][1..] == [];
    assert "" + EntryText(e) == EntryText(e);
  }

  /** The catalogue's braces, and the slot between them. */
  lemma OneEntryCloses(e: Entry)
    requires IsEntry(e)
    ensures var text := CatalogueText([e]);
            && OuterOf(text) == Some(|DECLARATION| + 3)
            && ClosingAt(text, |DECLARATION| + 3) == Some(|DECLARATION| + 5 + |EntryText(e)| + 1)
            && |text| > |DECLARATION| + 4 && text[|DECLARATION| + 4..] == "" + EntryText(e) + ("," + "\n}\n")
  {
    hide ClosingAt;
    hide IndexOf;
    hide OuterOf;
    hide IsEntry;
    hide EntryText;
    hide EntriesText;
    hide Level;
    var text, inside := CatalogueText([e]), EntriesText([e], "");
    var p := DECLARATION + " " + "= ";
    OneEntryText(e);
    OuterIsFound(inside + "\n}\n");
    EntriesLevel([e], "");
    LineBreakLevel(inside);
    assert text == p + "{" + (inside + "\n" + "}" + "\n");
    InsideCloses(p, inside + "\n", "\n");
    assert text[|p| + 1..] == inside + "\n}\n";
    assert inside + "\n}\n" == "" + EntryText(e) + ("," + "\n}\n");
  }

  lemma OneEntryFrom(text: string, from: nat, e: Entry, end: nat) returns (b: Block)
    requires IsEntry(e) && from <= |text| && text[from..] == "" + EntryText(e) + ("," + "\n}\n") && end > from + 1
    ensures BlocksFrom(text, from, false, end) == Some([b]) && b.name == e.name && b.items == ItemsOf(e.inside)
    ensures b.open < b.close < |text| && text[b.open..b.close] == "{" + e.inside
    ensures b.open - LineStartOf(text, b.open) == |e.name| + 4
  {
    hide BlocksFrom;
    hide ClosingAt;
    hide HeadFrom;
    hide IsEntry;
    hide EntryText;
    hide NextHead;
    hide ItemsOf;
    hide LineStartOf;
    hide LineOf;
    var rest := "," + "\n}\n";
    var m, close := EntryIsRead(text, from, "", e, rest);
    b := BlockAt(text, m, close);
    BlocksUnfold(text, from, false, end);
    BlocksUnfold(text, close + 1, false, end);
    PlaceHead(text, close + 1, false);
    NothingFollows(",");
    PlacedThere(text, from, e, rest);
    LineFront(text, from, e, rest);
    NoBreakBefore(e);
    OpensAtItsColumn(text, from + 1, m.open, close, "  " + e.name + ": ");
    assert [b] + [] == [b];
  }

  lemma OpensAtItsColumn(text: string, start: nat, open: nat, close: nat, front: string)
    requires 0 < start <= open < close <= |text| && text[start - 1] == '\n' && text[open] == '{'
    requires text[start..open] == front && '\n' !in front
    ensures LineStartOf(text, open) == start && text[open..close] == "{" + text[open + 1..close]
  {
    LineStartIs(text, start, open);
    OpenThen(text, open, close);
  }

  lemma PlacedThere(text: string, from: nat, e: Entry, rest: string)
    requires IsEntry(e) && from <= |text| && text[from..] == "" + EntryText(e) + rest
    ensures HeadFrom(text, from, false) == Some(Place(from + 1, from + 3, from + |e.name| + 5))
  {
    hide HeadFrom;
    hide IsEntry;
    hide EntryText;
    hide LineOf;
    LineFollows(text, from, "", e, rest);
    EntryPlace(text, from, "", e, rest);
  }

  lemma LineFront(text: string, from: nat, e: Entry, rest: string)
    requires from <= |text| && text[from..] == "" + EntryText(e) + rest
    ensures var start, open := from + 1, from + |e.name| + 5;
            start <= open < |text| && text[from] == '\n' && text[start..open] == "  " + e.name + ": " && text[open] == '{'
  {
    hide EntryText;
    hide LineOf;
    LineFollows(text, from, "", e, rest);
    StartsALine(text, from, LineOf(e, rest));
    LinePlaces(text, from + 1, e, rest);
    FrontOfBrace(text, text[..from + 1], e.name, e.inside + "}" + rest);
  }

  lemma StartsALine(text: string, from: nat, line: string)
    requires from <= |text| && text[from..] == "" + "\n" + line
    ensures text[from] == '\n'
  {
    assert text[from..][0] == '\n';
  }

  lemma FrontOfBrace(text: string, p: string, name: string, tail: string)
    requires text == p + "  " + name + ": " + "{" + tail
    ensures var open := |p| + |name| + 4;
            open < |text| && text[|p|..open] == "  " + name + ": " && text[open] == '{'
  {
    assert text == p + ("  " + name + ": ") + ("{" + tail);
  }

  lemma NoBreakBefore(e: Entry)
    requires IsEntry(e)
    ensures '\n' !in "  " + e.name + ": "
  {
    assert forall i :: 0 <= i < |e.name| ==> IsWord(e.name[i]);
  }

  lemma OpenThen(text: string, open: nat, close: nat)
    requires open < close <= |text| && text[open] == '{'
    ensures text[open..close] == "{" + text[open + 1..close]
  {}

  /** The slot's inside: an item, and an empty one behind it. */
  function ItemThenEmpty(item: string): string { " " + item + "," + (" " + "" + "," + " ") }

  lemma NoLineBreak(item: string)
    requires '\n' !in item
    ensures '\n' !in "{" + ItemThenEmpty(item)
  {}

  /**
   * A catalogue whose one slot has an empty item behind another, on one line that the new provider still fits: the edit
   * puts the provider first, and read again the slot has lost the empty item. Two commas in a row are no object literal of
   * the language the catalogue is written in; the scan takes them all the same.
   */
  lemma EmptyItemIsLost(name: string, item: string, provider: string, sdk: Option<string>, locale: Locale)
    requires name != "" && forall i :: 0 <= i < |name| ==> IsWord(name[i])
    requires Clean(item) && item != "" && '\n' !in item && !IsBuiltIn(item) && locale(ProviderOf(item), provider) > 0
    requires IsProviderName(provider) && (sdk.Some? ==> IsPackageName(sdk.value))
    requires |name| + 4 + |"{" + OneLineInside([AddedItem(provider, sdk), item, ""]) + "}"| + 1 <= LINE_LENGTH
    ensures var text := CatalogueText([Entry(name, ItemThenEmpty(item))]);
            var bs := Reading(text);
            && bs.Some? && |bs.value| == 1 && bs.value[0].items == [item, ""]
            && ReadsBack(CatalogueEdit(text, name, provider, sdk, locale), bs.value, 0,
                         [AddedItem(provider, sdk), item, ""], false)
  {
    hide Reading;
    hide ItemsOf;
    hide Level;
    hide Clean;
    hide AddedItem;
    hide IsBuiltIn;
    hide ProviderOf;
    hide CatalogueText;
    hide CatalogueEdit;
    hide LineStartOf;
    hide OneLineInside;
    hide ReadsBack;
    hide NextItems;
    EmptyItemOnOneLine(item, provider, sdk, locale);
    ItemThenEmptyIsBalanced(item);
    NoLineBreak(item);
    var e := Entry(name, ItemThenEmpty(item));
    var text := CatalogueText([e]);
    var b := OneEntryIsRead(e);
    assert LastNamed([b], name) == Some(0);
    EditIsReadBackExactly(text, name, provider, sdk, locale, [b], 0);
  }

  lemma ItemThenEmptyIsBalanced(item: string)
    requires Clean(item)
    ensures Level(ItemThenEmpty(item), 0) == Some(0)
  {
    hide ItemsOf;
    hide Clean;
    hide Level;
    EmptyIsClean();
    ItemThenComma(" ", item, " " + "" + "," + " ");
    ItemThenComma(" ", "", " ");
    NothingBetween(" ");
  }
}

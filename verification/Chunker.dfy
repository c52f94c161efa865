/** Splitting a long block of text into bounded pieces. */
module Chunker {

  // ---------------------------------------------------------------------------------------------
  // Stripping

  function TrimLeft(space: char -> bool, s: string): string {
    if s != "" && space(s[0]) then TrimLeft(space, s[1..]) else s
  }

  function TrimRight(space: char -> bool, s: string): string {
    if s != "" && space(s[|s| - 1]) then TrimRight(space, s[..|s| - 1]) else s
  }

  /** str.strip, for any notion of white space. */
  function Strip(space: char -> bool, s: string): string {
    TrimRight(space, TrimLeft(space, s))
  }

  /** Text that begins and ends with something visible. */
  predicate Trimmed(space: char -> bool, s: string) {
    s != "" && !space(s[0]) && !space(s[|s| - 1])
  }

  lemma {:induction false} TrimLeftVisible(space: char -> bool, s: string)
    ensures TrimLeft(space, s) == "" || !space(TrimLeft(space, s)[0])
  {
    if s != "" && space(s[0]) {
      TrimLeftVisible(space, s[1..]);
    }
  }

  lemma {:induction false} TrimRightVisible(space: char -> bool, s: string)
    ensures TrimRight(space, s) == "" || !space(TrimRight(space, s)[|TrimRight(space, s)| - 1])
    ensures TrimRight(space, s) <= s
  {
    if s != "" && space(s[|s| - 1]) {
      TrimRightVisible(space, s[..|s| - 1]);
    }
  }

  lemma StripTrims(space: char -> bool, s: string)
    ensures Strip(space, s) == "" || Trimmed(space, Strip(space, s))
  {
    TrimLeftVisible(space, s);
    TrimRightVisible(space, TrimLeft(space, s));
  }

  // ---------------------------------------------------------------------------------------------
  // Packing paragraphs

  /** Short paragraphs packed into one piece, or one paragraph cut into overlapping windows. */
  datatype Group = Joined(paragraphs: seq<string>) | Windows(paragraph: string)

  function Join(ps: seq<string>): string {
    if |ps| == 0 then "" else if |ps| == 1 then ps[0] else Join(ps[..|ps| - 1]) + "\n" + ps[|ps| - 1]
  }

  predicate Fits(gs: seq<Group>, p: string, size: int) {
    gs != [] && gs[|gs| - 1].Joined? && |Join(gs[|gs| - 1].paragraphs)| + |p| + 1 <= size
  }

  function Packed(gs: seq<Group>, p: string, size: int): seq<Group> {
    if |p| > size then gs + [Windows(p)]
    else if Fits(gs, p, size) then gs[..|gs| - 1] + [Joined(gs[|gs| - 1].paragraphs + [p])]
    else gs + [Joined([p])]
  }

  /** Greedy packing. */
  function GroupsOf(ps: seq<string>, size: int): seq<Group> {
    if ps == [] then [] else Packed(GroupsOf(ps[..|ps| - 1], size), ps[|ps| - 1], size)
  }

  /** p[start : start + size] for start in range(start, len(p), step). */
  function WindowsFrom(p: string, start: nat, size: nat, step: nat): seq<string>
    requires step >= 1
    decreases |p| - start
  {
    if start >= |p| then []
    else [p[start..if start + size < |p| then start + size else |p|]] + WindowsFrom(p, start + step, size, step)
  }

  function StepOf(size: int, overlap: int): (step: nat)
    ensures step >= 1
  {
    if size - overlap > 1 then size - overlap else 1
  }

  function PiecesOf(g: Group, size: nat, step: nat): seq<string>
    requires step >= 1
  {
    match g
    case Joined(ps) => [Join(ps)]
    case Windows(p) => WindowsFrom(p, 0, size, step)
  }

  function Flat(gs: seq<Group>, size: nat, step: nat): seq<string>
    requires step >= 1
  {
    if gs == [] then [] else Flat(gs[..|gs| - 1], size, step) + PiecesOf(gs[|gs| - 1], size, step)
  }

  /** The pieces already cut off when the last group may still grow, and the text of that group. */
  function Closed(gs: seq<Group>): seq<Group> {
    if gs != [] && gs[|gs| - 1].Joined? then gs[..|gs| - 1] else gs
  }

  function Current(gs: seq<Group>): string {
    if gs != [] && gs[|gs| - 1].Joined? then Join(gs[|gs| - 1].paragraphs) else ""
  }

  /** The stripped non-empty parts; the text itself when there are none. */
  function Paragraphs(space: char -> bool, parts: seq<string>, text: string): seq<string> {
    var ps := Kept(space, parts);
    if ps == [] then [text] else ps
  }

  function Kept(space: char -> bool, parts: seq<string>): seq<string> {
    if parts == [] then []
    else
      var n := |parts| - 1;
      var p := Strip(space, parts[n]);
      Kept(space, parts[..n]) + (if p == "" then [] else [p])
  }

  ghost predicate AllTrimmed(space: char -> bool, ps: seq<string>) {
    forall i :: 0 <= i < |ps| ==> Trimmed(space, ps[i])
  }

  lemma {:induction false} KeptTrimmed(space: char -> bool, parts: seq<string>)
    ensures AllTrimmed(space, Kept(space, parts))
  {
    if parts != [] {
      KeptTrimmed(space, parts[..|parts| - 1]);
      StripTrims(space, parts[|parts| - 1]);
    }
  }

  predicate WellformedGroup(space: char -> bool, g: Group, size: nat) {
    match g
    case Joined(ps) => ps != [] && Trimmed(space, Join(ps)) && |Join(ps)| <= size
    case Windows(p) => |p| > size
  }

  ghost predicate Wellformed(space: char -> bool, gs: seq<Group>, size: nat) {
    forall i :: 0 <= i < |gs| ==> WellformedGroup(space, gs[i], size)
  }

  lemma PackedWellformed(space: char -> bool, gs: seq<Group>, p: string, size: nat)
    requires Wellformed(space, gs, size) && Trimmed(space, p)
    ensures Wellformed(space, Packed(gs, p, size), size)
  {
    if |p| <= size && Fits(gs, p, size) {
      var qs := gs[|gs| - 1].paragraphs;
      assert WellformedGroup(space, gs[|gs| - 1], size);
      assert (qs + [p])[..|qs|] == qs;
      assert Join(qs + [p]) == Join(qs) + "\n" + p;
      assert WellformedGroup(space, Joined(qs + [p]), size);
    }
  }

  lemma {:induction false} GroupsWellformed(space: char -> bool, ps: seq<string>, size: nat)
    requires AllTrimmed(space, ps)
    ensures Wellformed(space, GroupsOf(ps, size), size)
  {
    hide Packed, WellformedGroup, Trimmed;
    if ps != [] {
      var n := |ps| - 1;
      GroupsWellformed(space, ps[..n], size);
      PackedWellformed(space, GroupsOf(ps[..n], size), ps[n], size);
    }
  }

  lemma StripJoined(space: char -> bool, current: string, p: string)
    requires space('\n') && Trimmed(space, p) && (current == "" || Trimmed(space, current))
    ensures Strip(space, current + "\n" + p) == if current == "" then p else current + "\n" + p
  {
    var s := current + "\n" + p;
    if current == "" {
      assert s[0] == '\n' && s[1..] == p;
      assert TrimLeft(space, s) == TrimLeft(space, p) == p;
      assert TrimRight(space, p) == p;
    } else {
      assert s[0] == current[0] && s[|s| - 1] == p[|p| - 1];
    }
  }

  /** Where the loop stands: the pieces cut off so far, and the text of the group that may still grow. */
  ghost predicate Standing(gs: seq<Group>, size: nat, step: nat, current: string, pieces: seq<string>)
    requires step >= 1
  {
    current == Current(gs) && pieces == Flat(Closed(gs), size, step)
  }

  /** _split_long; parts are what the regular expression cuts the text into. */
  method SplitLong(space: char -> bool, text: string, parts: seq<string>, size: nat, overlap: int)
    returns (pieces: seq<string>)
    requires size >= 1 && space('\n') && Trimmed(space, text)
    ensures pieces == Flat(GroupsOf(Paragraphs(space, parts, text), size), size, StepOf(size, overlap))
  {
    var paragraphs := Kept(space, parts);
    if paragraphs == [] {
      paragraphs := [text];
    }
    assert paragraphs == Paragraphs(space, parts, text);
    KeptTrimmed(space, parts);
    var step := if size - overlap > 1 then size - overlap else 1;
    pieces := [];
    var current := "";
    for i := 0 to |paragraphs|
      invariant Standing(GroupsOf(paragraphs[..i], size), size, step, current, pieces)
    {
      var p := paragraphs[i];
      ghost var gs := GroupsOf(paragraphs[..i], size);
      assert current == Current(gs);
      hide *;
      PrefixFacts(space, paragraphs, i, size);
      Flushed(space, gs, size, step, current, pieces);
      if |current| + |p| + 1 <= size {
        StripJoined(space, current, p);
        Grown(space, gs, p, size, step, current, pieces);
        current := Strip(space, current + "\n" + p);
      } else {
        Started(gs, p, size, step, current);
        if current != "" {
          pieces := pieces + [current];
        }
        if |p| <= size {
          current := p;
        } else {
          var windows := CutWindows(p, size, step);
          pieces := pieces + windows;
          current := "";
        }
      }
    }
    assert paragraphs[..|paragraphs|] == paragraphs;
    hide *;
    GroupsWellformed(space, paragraphs, size);
    Flushed(space, GroupsOf(paragraphs, size), size, step, current, pieces);
    if current != "" {
      pieces := pieces + [current];
    }
  }

  lemma PrefixFacts(space: char -> bool, ps: seq<string>, i: nat, size: nat)
    requires AllTrimmed(space, ps) && i < |ps|
    ensures
      var gs := GroupsOf(ps[..i], size);
      && GroupsOf(ps[..i + 1], size) == Packed(gs, ps[i], size)
      && Wellformed(space, gs, size) && Trimmed(space, ps[i]) && (Current(gs) == "" || Trimmed(space, Current(gs)))
  {
    assert ps[..i + 1][..i] == ps[..i];
    GroupsWellformed(space, ps[..i], size);
    CurrentTrimmed(space, GroupsOf(ps[..i], size), size);
  }

  lemma CurrentTrimmed(space: char -> bool, gs: seq<Group>, size: nat)
    requires Wellformed(space, gs, size)
    ensures Current(gs) == "" || Trimmed(space, Current(gs))
  {
    if gs != [] {
      assert WellformedGroup(space, gs[|gs| - 1], size);
    }
  }

  /** Cutting off the current text leaves the pieces of all groups. */
  lemma Flushed(space: char -> bool, gs: seq<Group>, size: nat, step: nat, current: string, pieces: seq<string>)
    requires step >= 1 && Wellformed(space, gs, size) && Standing(gs, size, step, current, pieces)
    ensures Flat(gs, size, step) == pieces + if current != "" then [current] else []
  {
    if gs != [] {
      assert WellformedGroup(space, gs[|gs| - 1], size);
    }
  }

  /** A paragraph that fits joins the group that may still grow, or begins one. */
  lemma Grown(space: char -> bool, gs: seq<Group>, p: string, size: nat, step: nat, current: string, pieces: seq<string>)
    requires step >= 1 && Wellformed(space, gs, size) && Standing(gs, size, step, current, pieces)
    requires |current| + |p| + 1 <= size
    ensures Standing(Packed(gs, p, size), size, step, if current == "" then p else current + "\n" + p, pieces)
  {
    hide Flat, WindowsFrom, WellformedGroup, Join;
    if Fits(gs, p, size) {
      JoinsLast(space, gs, p, size);
    } else {
      BeginsGroup(space, gs, p, size);
    }
  }

  lemma JoinsLast(space: char -> bool, gs: seq<Group>, p: string, size: nat)
    requires Wellformed(space, gs, size) && Fits(gs, p, size)
    ensures Closed(Packed(gs, p, size)) == Closed(gs)
    ensures Current(gs) != "" && Current(Packed(gs, p, size)) == Current(gs) + "\n" + p
  {
    var last := |gs| - 1;
    var qs := gs[last].paragraphs;
    assert WellformedGroup(space, gs[last], size);
    JoinSnoc(qs, p);
    hide Join, WellformedGroup;
    var packed := Packed(gs, p, size);
    assert packed[last] == Joined(qs + [p]) && packed[..last] == gs[..last] && |packed| == |gs|;
  }

  lemma JoinSnoc(qs: seq<string>, p: string)
    requires qs != []
    ensures Join(qs + [p]) == Join(qs) + "\n" + p
  {
    assert (qs + [p])[..|qs|] == qs;
  }

  lemma BeginsGroup(space: char -> bool, gs: seq<Group>, p: string, size: nat)
    requires Wellformed(space, gs, size) && |Current(gs)| + |p| + 1 <= size && !Fits(gs, p, size)
    ensures Current(gs) == "" && Closed(gs) == gs
    ensures Closed(Packed(gs, p, size)) == gs && Current(Packed(gs, p, size)) == p
  {
    assert (gs + [Joined([p])])[..|gs|] == gs;
  }

  /** A paragraph that does not fit starts a new group. */
  lemma Started(gs: seq<Group>, p: string, size: nat, step: nat, current: string)
    requires step >= 1 && current == Current(gs) && |current| + |p| + 1 > size
    ensures
      if |p| <= size then Standing(Packed(gs, p, size), size, step, p, Flat(gs, size, step))
      else Standing(Packed(gs, p, size), size, step, "", Flat(gs, size, step) + WindowsFrom(p, 0, size, step))
  {
    var after := Packed(gs, p, size);
    assert after[..|gs|] == gs;
  }

  method CutWindows(p: string, size: nat, step: nat) returns (windows: seq<string>)
    requires step >= 1
    ensures windows == WindowsFrom(p, 0, size, step)
  {
    windows := [];
    var start := 0;
    while start < |p|
      invariant windows + WindowsFrom(p, start, size, step) == WindowsFrom(p, 0, size, step)
    {
      windows := windows + [p[start..if start + size < |p| then start + size else |p|]];
      start := start + step;
    }
  }

  // ---------------------------------------------------------------------------------------------
  // Bounded

  lemma {:induction false} WindowsBounded(p: string, start: nat, size: nat, step: nat)
    requires step >= 1 && size >= 1
    ensures forall w <- WindowsFrom(p, start, size, step) :: 1 <= |w| <= size
    decreases |p| - start
  {
    if start < |p| {
      WindowsBounded(p, start + step, size, step);
    }
  }

  lemma {:induction false} FlatBounded(space: char -> bool, gs: seq<Group>, size: nat, step: nat)
    requires step >= 1 && size >= 1 && Wellformed(space, gs, size)
    ensures forall piece <- Flat(gs, size, step) :: 1 <= |piece| <= size
  {
    if gs != [] {
      var n := |gs| - 1;
      FlatBounded(space, gs[..n], size, step);
      assert WellformedGroup(space, gs[n], size);
      if gs[n].Windows? {
        WindowsBounded(gs[n].paragraph, 0, size, step);
      }
    }
  }

  /** No piece is empty and none exceeds the chunk size, whatever the overlap. */
  lemma PiecesBounded(space: char -> bool, text: string, parts: seq<string>, size: nat, overlap: int)
    requires size >= 1 && Trimmed(space, text)
    ensures forall piece <- Flat(GroupsOf(Paragraphs(space, parts, text), size), size, StepOf(size, overlap)) ::
              1 <= |piece| <= size
  {
    var ps := Paragraphs(space, parts, text);
    KeptTrimmed(space, parts);
    GroupsWellformed(space, ps, size);
    FlatBounded(space, GroupsOf(ps, size), size, StepOf(size, overlap));
  }

  // ---------------------------------------------------------------------------------------------
  // Lossless

  function ParagraphsOf(gs: seq<Group>): seq<string> {
    if gs == [] then []
    else
      var n := |gs| - 1;
      ParagraphsOf(gs[..n]) + match gs[n] case Joined(ps) => ps case Windows(p) => [p]
  }

  /** The windows without what each repeats from the one before. */
  function Unwindow(windows: seq<string>, step: nat): string {
    if windows == [] then ""
    else windows[0][..if step < |windows[0]| then step else |windows[0]|] + Unwindow(windows[1..], step)
  }

  /** Packing keeps every paragraph, in order. */
  lemma {:induction false} PackingKeepsParagraphs(ps: seq<string>, size: int)
    ensures ParagraphsOf(GroupsOf(ps, size)) == ps
  {
    if ps != [] {
      var n := |ps| - 1;
      PackingKeepsParagraphs(ps[..n], size);
      var gs, p := GroupsOf(ps[..n], size), ps[n];
      assert ps == ps[..n] + [p];
      if |p| <= size && Fits(gs, p, size) {
        var m := |gs| - 1;
        var grown := gs[..m] + [Joined(gs[m].paragraphs + [p])];
        assert grown[..m] == gs[..m];
        assert ParagraphsOf(grown) == ParagraphsOf(gs[..m]) + (gs[m].paragraphs + [p]);
      } else {
        var last := if |p| > size then Windows(p) else Joined([p]);
        assert (gs + [last])[..|gs|] == gs;
      }
    }
  }

  lemma {:induction false} WindowsRestore(p: string, start: nat, size: nat, step: nat)
    requires 1 <= step <= size && start <= |p|
    ensures Unwindow(WindowsFrom(p, start, size, step), step) == p[start..]
    decreases |p| - start
  {
    if start < |p| {
      var end := if start + size < |p| then start + size else |p|;
      var ws := WindowsFrom(p, start + step, size, step);
      assert ([p[start..end]] + ws)[1..] == ws;
      if start + step < |p| {
        WindowsRestore(p, start + step, size, step);
        assert p[start..end][..step] == p[start..start + step];
        assert p[start..] == p[start..start + step] + p[start + step..];
      } else {
        assert ws == [];
      }
    }
  }

  /** The windows of a long paragraph give it back exactly when the overlap is not negative: otherwise the text between
      two windows is dropped. */
  lemma WindowsLosslessIff(p: string, size: nat, overlap: int)
    requires size >= 1 && |p| > size
    ensures Unwindow(WindowsFrom(p, 0, size, StepOf(size, overlap)), StepOf(size, overlap)) == p <==> overlap >= 0
  {
    var step := StepOf(size, overlap);
    if overlap >= 0 {
      WindowsRestore(p, 0, size, step);
    } else {
      UnwindowShorter(p, 0, size, step);
    }
  }

  /** Windows of one character, an overlap of minus one: every other character is lost. */
  lemma NegativeOverlapLosesText()
    ensures WindowsFrom("abc", 0, 1, StepOf(1, -1)) == ["a", "c"]
    ensures Unwindow(["a", "c"], StepOf(1, -1)) == "ac"
  {
    var p := "abc";
    assert p[2..3] == "c" && p[0..1] == "a";
    assert WindowsFrom(p, 4, 1, 2) == [];
    assert WindowsFrom(p, 2, 1, 2) == ["c"];
    assert ["a", "c"][1..] == ["c"] && ["c"][1..] == [];
    assert Unwindow(["c"], 2) == "c";
  }

  /** Wider steps than windows: each step loses what lies between. */
  lemma {:induction false} UnwindowShorter(p: string, start: nat, size: nat, step: nat)
    requires 1 <= size < step && start <= |p|
    ensures |Unwindow(WindowsFrom(p, start, size, step), step)| <= |p| - start
    ensures start + size < |p| ==> |Unwindow(WindowsFrom(p, start, size, step), step)| < |p| - start
    decreases |p| - start
  {
    if start < |p| {
      var end := if start + size < |p| then start + size else |p|;
      var ws := WindowsFrom(p, start + step, size, step);
      assert ([p[start..end]] + ws)[1..] == ws;
      if start + step <= |p| {
        UnwindowShorter(p, start + step, size, step);
      } else {
        assert ws == [];
      }
    }
  }

  /** How a run of pieces was made: paragraphs of these lengths joined into one, or so many windows. */
  datatype Layout = Several(lengths: seq<nat>) | Cut(count: nat)

  function LengthsOf(ps: seq<string>): seq<nat> {
    seq(|ps|, i requires 0 <= i < |ps| => |ps[i]|)
  }

  function LayoutOf(g: Group, size: nat, step: nat): Layout
    requires step >= 1
  {
    match g case Joined(ps) => Several(LengthsOf(ps)) case Windows(p) => Cut(|WindowsFrom(p, 0, size, step)|)
  }

  function LayoutsOf(gs: seq<Group>, size: nat, step: nat): seq<Layout>
    requires step >= 1
  {
    seq(|gs|, i requires 0 <= i < |gs| => LayoutOf(gs[i], size, step))
  }

  /** Takes the joining newlines out again. */
  function Unjoin(s: string, lengths: seq<nat>): seq<string> {
    if |lengths| <= 1 then [s]
    else
      var n := |lengths| - 1;
      if |s| <= lengths[n] then [s]
      else Unjoin(s[..|s| - lengths[n] - 1], lengths[..n]) + [s[|s| - lengths[n]..]]
  }

  /** Reads the paragraphs back from the pieces. */
  function Restored(pieces: seq<string>, layouts: seq<Layout>, step: nat): seq<string>
    decreases |layouts|
  {
    if layouts == [] then []
    else
      var n := |layouts| - 1;
      var taken := if layouts[n].Several? then 1 else layouts[n].count;
      if taken > |pieces| then []
      else
        var at := |pieces| - taken;
        Restored(pieces[..at], layouts[..n], step)
        + match layouts[n]
          case Several(lengths) => Unjoin(pieces[at], lengths)
          case Cut(_) => [Unwindow(pieces[at..], step)]
  }

  lemma CutBack(before: string, p: string)
    ensures
      var s := before + "\n" + p;
      |s| > |p| && s[|s| - |p|..] == p && s[..|s| - |p| - 1] == before
  {
  }

  lemma {:induction false} UnjoinJoin(ps: seq<string>)
    requires ps != []
    ensures Unjoin(Join(ps), LengthsOf(ps)) == ps
  {
    if |ps| > 1 {
      var n := |ps| - 1;
      UnjoinJoin(ps[..n]);
      CutBack(Join(ps[..n]), ps[n]);
      var lengths, s := LengthsOf(ps), Join(ps);
      assert lengths[..n] == LengthsOf(ps[..n]) && lengths[n] == |ps[n]|;
      assert Unjoin(s, lengths) == Unjoin(s[..|s| - lengths[n] - 1], lengths[..n]) + [s[|s| - lengths[n]..]];
      assert ps == ps[..n] + [ps[n]];
    }
  }

  lemma {:induction false} FlatRestores(space: char -> bool, gs: seq<Group>, size: nat, step: nat)
    requires 1 <= step <= size && Wellformed(space, gs, size)
    ensures Restored(Flat(gs, size, step), LayoutsOf(gs, size, step), step) == ParagraphsOf(gs)
  {
    if gs != [] {
      var n := |gs| - 1;
      FlatRestores(space, gs[..n], size, step);
      assert WellformedGroup(space, gs[n], size);
      var before, last := Flat(gs[..n], size, step), PiecesOf(gs[n], size, step);
      assert LayoutsOf(gs, size, step)[..n] == LayoutsOf(gs[..n], size, step);
      assert (before + last)[..|before|] == before && (before + last)[|before|..] == last;
      match gs[n]
      case Joined(ps) => UnjoinJoin(ps);
      case Windows(p) => WindowsRestore(p, 0, size, step);
    }
  }

  /** Nothing is lost: with an overlap that is not negative, the paragraphs can be read back from the pieces, in order. */
  lemma SplitIsLossless(space: char -> bool, text: string, parts: seq<string>, size: nat, overlap: nat)
    requires size >= 1 && Trimmed(space, text)
    ensures
      var ps, step := Paragraphs(space, parts, text), StepOf(size, overlap);
      var gs := GroupsOf(ps, size);
      Restored(Flat(gs, size, step), LayoutsOf(gs, size, step), step) == ps
  {
    var ps := Paragraphs(space, parts, text);
    KeptTrimmed(space, parts);
    GroupsWellformed(space, ps, size);
    FlatRestores(space, GroupsOf(ps, size), size, StepOf(size, overlap));
    PackingKeepsParagraphs(ps, size);
  }

  // ---------------------------------------------------------------------------------------------
  // Overlap, greed, and what stripping removes

  /** The k-th window starts k steps in, and ends after the chunk size or with the text. */
  lemma {:induction false} WindowAt(p: string, start: nat, size: nat, step: nat, k: nat)
    requires step >= 1
    ensures k < |WindowsFrom(p, start, size, step)| <==> start + k * step < |p|
    ensures start + k * step < |p| ==>
              var from := start + k * step;
              WindowsFrom(p, start, size, step)[k] == p[from..if from + size < |p| then from + size else |p|]
    decreases k
  {
    if start < |p| && k > 0 {
      WindowAt(p, start + step, size, step, k - 1);
      assert start + step + (k - 1) * step == start + k * step;
    } else if k > 0 {
      assert k * step >= 0;
    }
  }

  /** Two consecutive windows, the first of them full. */
  lemma TwoWindows(p: string, size: nat, step: nat, k: nat) returns (at: nat)
    requires step >= 1 && k + 1 < |WindowsFrom(p, 0, size, step)| && |WindowsFrom(p, 0, size, step)[k]| == size
    ensures at == k * step && at + size <= |p| && at + step < |p|
    ensures WindowsFrom(p, 0, size, step)[k] == p[at..at + size]
    ensures var next := at + step;
            WindowsFrom(p, 0, size, step)[k + 1] == p[next..if next + size < |p| then next + size else |p|]
  {
    WindowAt(p, 0, size, step, k);
    WindowAt(p, 0, size, step, k + 1);
    hide WindowsFrom;
    at := k * step;
    assert (k + 1) * step == at + step;
  }

  /** Each window after a full one repeats its last characters: as many as the overlap says, but never a whole window.
      With a negative overlap it skips that many instead. */
  lemma WindowsOverlap(p: string, size: nat, overlap: int, k: nat) returns (at: nat)
    requires size >= 1 && k + 1 < |WindowsFrom(p, 0, size, StepOf(size, overlap))|
    requires |WindowsFrom(p, 0, size, StepOf(size, overlap))[k]| == size
    ensures
      var w, v := WindowsFrom(p, 0, size, StepOf(size, overlap))[k], WindowsFrom(p, 0, size, StepOf(size, overlap))[k + 1];
      && |v| >= 1 && at + size <= |p| && w == p[at..at + size]
      && (0 <= overlap < size ==> |v| >= overlap && v[..overlap] == w[size - overlap..])
      && (overlap >= size ==> |v| >= size - 1 && v[..size - 1] == w[1..])
      && (overlap < 0 ==> at + size - overlap < |p| && v[0] == p[at + size - overlap])
  {
    var step := StepOf(size, overlap);
    at := TwoWindows(p, size, step, k);
    hide WindowsFrom;
  }

  /** A group boundary that greedy packing allows: two packed groups stand side by side only if the first paragraph of
      the second did not fit into the first. */
  predicate Apart(g: Group, h: Group, size: int) {
    g.Joined? && h.Joined? && h.paragraphs != [] ==> |Join(g.paragraphs)| + 1 + |h.paragraphs[0]| > size
  }

  /** Just the paragraphs longer than a chunk are cut. */
  ghost predicate CutIfLong(g: Group, size: int) {
    match g
    case Joined(ps) => ps != [] && forall p <- ps :: |p| <= size
    case Windows(p) => |p| > size
  }

  ghost predicate Greedy(gs: seq<Group>, size: int) {
    && (forall i :: 0 <= i < |gs| - 1 ==> Apart(gs[i], gs[i + 1], size))
    && (forall i :: 0 <= i < |gs| ==> CutIfLong(gs[i], size))
  }

  lemma GreedySnoc(gs: seq<Group>, g: Group, size: int)
    requires Greedy(gs, size) && CutIfLong(g, size) && (gs != [] ==> Apart(gs[|gs| - 1], g, size))
    ensures Greedy(gs + [g], size)
  {
    hide Apart, CutIfLong;
  }

  lemma PackedIsGreedy(gs: seq<Group>, p: string, size: int)
    requires Greedy(gs, size)
    ensures Greedy(Packed(gs, p, size), size)
  {
    if |p| <= size && Fits(gs, p, size) {
      var m := |gs| - 1;
      var grown := Joined(gs[m].paragraphs + [p]);
      assert CutIfLong(gs[m], size);
      assert CutIfLong(grown, size);
      assert m > 0 ==> Apart(gs[m - 1], gs[m], size) && grown.paragraphs[0] == gs[m].paragraphs[0];
      assert m > 0 ==> Apart(gs[m - 1], grown, size);
      hide Apart, CutIfLong, Join;
      assert Greedy(gs[..m], size);
      GreedySnoc(gs[..m], grown, size);
    } else {
      var last := if |p| > size then Windows(p) else Joined([p]);
      assert gs != [] ==> Apart(gs[|gs| - 1], last, size);
      assert CutIfLong(last, size);
      hide Apart, CutIfLong;
      GreedySnoc(gs, last, size);
    }
  }

  /** Packing is greedy. */
  lemma {:induction false} PackingIsGreedy(ps: seq<string>, size: int)
    ensures Greedy(GroupsOf(ps, size), size)
  {
    hide Packed;
    if ps != [] {
      hide Greedy;
      PackingIsGreedy(ps[..|ps| - 1], size);
      PackedIsGreedy(GroupsOf(ps[..|ps| - 1], size), ps[|ps| - 1], size);
    }
  }

  /** The characters that are not white space. */
  function Visible(space: char -> bool, s: string): string {
    if s == "" then "" else Visible(space, s[..|s| - 1]) + if space(s[|s| - 1]) then "" else [s[|s| - 1]]
  }

  function VisibleInAll(space: char -> bool, ss: seq<string>): string {
    if ss == [] then "" else VisibleInAll(space, ss[..|ss| - 1]) + Visible(space, ss[|ss| - 1])
  }

  lemma {:induction false} VisibleAppend(space: char -> bool, s: string, t: string)
    ensures Visible(space, s + t) == Visible(space, s) + Visible(space, t)
  {
    if t == "" {
      assert s + t == s;
    } else {
      assert (s + t)[..|s + t| - 1] == s + t[..|t| - 1];
      VisibleAppend(space, s, t[..|t| - 1]);
    }
  }

  lemma {:induction false} TrimLeftKeepsVisible(space: char -> bool, s: string)
    ensures Visible(space, TrimLeft(space, s)) == Visible(space, s)
  {
    if s != "" && space(s[0]) {
      TrimLeftKeepsVisible(space, s[1..]);
      assert s == [s[0]] + s[1..] && Visible(space, [s[0]]) == "";
      VisibleAppend(space, [s[0]], s[1..]);
    }
  }

  lemma {:induction false} TrimRightKeepsVisible(space: char -> bool, s: string)
    ensures Visible(space, TrimRight(space, s)) == Visible(space, s)
  {
    if s != "" && space(s[|s| - 1]) {
      TrimRightKeepsVisible(space, s[..|s| - 1]);
    }
  }

  /** Stripping the parts and dropping the empty ones loses no visible character and keeps their order. */
  lemma {:induction false} KeptKeepsVisible(space: char -> bool, parts: seq<string>)
    ensures VisibleInAll(space, Kept(space, parts)) == VisibleInAll(space, parts)
  {
    if parts != [] {
      var n := |parts| - 1;
      KeptKeepsVisible(space, parts[..n]);
      TrimLeftKeepsVisible(space, parts[n]);
      TrimRightKeepsVisible(space, TrimLeft(space, parts[n]));
      var p, before := Strip(space, parts[n]), Kept(space, parts[..n]);
      assert Visible(space, p) == Visible(space, parts[n]);
      KeptSnoc(space, parts);
      NothingVisible(space);
      hide Strip, Kept, Visible;
      if p == "" {
        assert before + [] == before && VisibleInAll(space, before) + "" == VisibleInAll(space, before);
      } else {
        assert (before + [p])[..|before|] == before;
      }
    }
  }

  lemma KeptSnoc(space: char -> bool, parts: seq<string>)
    requires parts != []
    ensures var n := |parts| - 1;
            Kept(space, parts) == Kept(space, parts[..n]) + if Strip(space, parts[n]) == "" then [] else [Strip(space, parts[n])]
  {
  }

  lemma NothingVisible(space: char -> bool)
    ensures Visible(space, "") == ""
  {
  }

  lemma {:induction false} VisibleIffKept(space: char -> bool, parts: seq<string>)
    ensures Kept(space, parts) == [] <==> VisibleInAll(space, parts) == ""
  {
    KeptKeepsVisible(space, parts);
    var ps := Kept(space, parts);
    if ps != [] {
      KeptTrimmed(space, parts);
      assert Trimmed(space, ps[|ps| - 1]);
    }
  }

  /** The paragraphs of a text are what is visible in its parts; only a text without any stands for itself. */
  lemma ParagraphsAreVisible(space: char -> bool, parts: seq<string>, text: string)
    ensures if VisibleInAll(space, parts) == "" then Paragraphs(space, parts, text) == [text]
            else VisibleInAll(space, Paragraphs(space, parts, text)) == VisibleInAll(space, parts)
                 && AllTrimmed(space, Paragraphs(space, parts, text))
  {
    VisibleIffKept(space, parts);
    KeptKeepsVisible(space, parts);
    KeptTrimmed(space, parts);
  }
}

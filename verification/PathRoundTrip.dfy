/** Compiling inverts printing, and exactly when compiling panics (etree/path.go:205-317). */
module PathRoundTrip {
  import opened Basics
  import opened PathModel
  import opened Strings
  import opened PathCompiler
  import D = Descendants

  // ------------------------------------------------------------------- printing

  function PrintName(space: string, key: string): (s: string) {
    if space == "" then key else space + ":" + key
  }

  function PrintSelector(sel: Selector): (s: string) {
    match sel
    case Self => "."
    case Parent => ".."
    case Children => "*"
    case Descendants => ""
    case ByTag(space, tag) => PrintName(space, tag)
  }

  function PrintFilter(f: Filter): (s: string) {
    match f
    case Pos(i) => if i >= 0 then Decimal(i + 1) else "-" + Decimal(-i)
    case HasAttr(space, key) => "@" + PrintName(space, key)
    case AttrVal(space, key, val) => "@" + PrintName(space, key) + "='" + val + "'"
    case HasChild(space, tag) => PrintName(space, tag)
    case ChildText(space, tag, text) => PrintName(space, tag) + "='" + text + "'"
  }

  function FilterPieces(fs: seq<Filter>): (ps: seq<string>) {
    seq(|fs|, i requires 0 <= i < |fs| => PrintFilter(fs[i]) + "]")
  }

  function PrintSegment(seg: Segment): (s: string) {
    Join([PrintSelector(seg.sel)] + FilterPieces(seg.filters), "[")
  }

  function SegmentTexts(g: Group): (ps: seq<string>) {
    seq(|g|, i requires 0 <= i < |g| => PrintSegment(g[i]))
  }

  function PrintGroup(g: Group): (s: string) {
    Join(SegmentTexts(g), "/")
  }

  function GroupTexts(p: Path): (ps: seq<string>) {
    seq(|p|, i requires 0 <= i < |p| => PrintGroup(p[i]))
  }

  function PrintPath(p: Path): (s: string) {
    Join(GroupTexts(p), "|")
  }

  // ---------------------------------------------------------------- normal form

  /** A namespace never holds a colon; a name without namespace does not either. */
  predicate NameIsNormal(space: string, key: string) {
    ':' !in space && (space == "" ==> ':' !in key)
  }

  predicate Plain(s: string) {
    '|' !in s && '/' !in s && '[' !in s
  }

  ghost predicate QuoteFree(s: string) {
    forall i: nat :: !Occurs(s, "='", i)
  }

  ghost predicate FilterIsNormal(f: Filter) {
    && Plain(PrintFilter(f))
    && match f
       case Pos(i) => MIN_INT <= i < MAX_INT
       case HasAttr(space, key) => NameIsNormal(space, key) && QuoteFree("@" + PrintName(space, key))
       case AttrVal(space, key, val) =>
         NameIsNormal(space, key) && QuoteFree("@" + PrintName(space, key)) && '\'' !in val
       case HasChild(space, tag) =>
         var n := PrintName(space, tag);
         NameIsNormal(space, tag) && QuoteFree(n) && n != "" && n[0] != '@' && !IsInteger(n)
       case ChildText(space, tag, text) =>
         var n := PrintName(space, tag);
         NameIsNormal(space, tag) && QuoteFree(n) && (n != "" ==> n[0] != '@') && '\'' !in text
  }

  predicate SelectorIsNormal(sel: Selector) {
    && Plain(PrintSelector(sel))
    && (sel.ByTag? ==>
          NameIsNormal(sel.space, sel.tag) && PrintName(sel.space, sel.tag) !in {"", ".", "..", "*"})
  }

  ghost predicate SegmentIsNormal(seg: Segment) {
    SelectorIsNormal(seg.sel) && forall i :: 0 <= i < |seg.filters| ==> FilterIsNormal(seg.filters[i])
  }

  /** Such a group does not print with a leading slash or two trailing ones, which mean other things. */
  ghost predicate GroupIsNormal(g: Group) {
    && g != [] && (forall i :: 0 <= i < |g| ==> SegmentIsNormal(g[i]))
    && (|g| > 1 ==> PrintSegment(g[0]) != "")
    && (|g| > 1 ==> PrintSegment(g[|g| - 2]) != "" || PrintSegment(g[|g| - 1]) != "")
  }

  ghost predicate PathIsNormal(p: Path) {
    p != [] && forall i :: 0 <= i < |p| ==> GroupIsNormal(p[i])
  }

  // --------------------------------------------------------------- single parts

  lemma NameRoundTrip(space: string, key: string)
    requires NameIsNormal(space, key)
    ensures SpaceDecompose(PrintName(space, key)) == (space, key)
  {
    var s := PrintName(space, key);
    if space == "" {
      CharIsNowhere(s, ':');
    } else {
      var k := |space|;
      CharIsFirst(space, ':', key);
      assert s[..k] == space && s[k + 1..] == key;
    }
  }

  lemma PositionRoundTrip(i: int)
    requires MIN_INT <= i < MAX_INT
    ensures ParseFilter(PrintFilter(Pos(i))) == Parsed(Pos(i))
  {
    if i >= 0 {
      PositiveRoundTrip(i);
    } else {
      NegativeRoundTrip(i);
    }
  }

  lemma PositiveRoundTrip(i: int)
    requires 0 <= i < MAX_INT
    ensures ParseFilter(PrintFilter(Pos(i))) == Parsed(Pos(i))
  {
    PairIsNowhere(PrintFilter(Pos(i)), '=', '\'');
    NatOfDecimal(i + 1);
  }

  lemma NegativeRoundTrip(i: int)
    requires MIN_INT <= i < 0
    ensures ParseFilter(PrintFilter(Pos(i))) == Parsed(Pos(i))
  {
    var s := PrintFilter(Pos(i));
    PairIsNowhere(s, '=', '\'');
    NatOfDecimal(-i);
    assert s[1..] == Decimal(-i);
  }

  /** `name='val'`: the equation sign found is the printed one, and so is the closing quote. */
  lemma QuotedParts(n: string, val: string)
    requires QuoteFree(n) && '\'' !in val
    ensures var s := n + "='" + val + "'";
            && Index(s, "='") == |n| && NextIndex(s, "'", |n| + 2) == |s| - 1
            && s[..|n|] == n && s[|n| + 2..|s| - 1] == val
  {
    var s := n + "='" + val + "'";
    var k := |n|;
    PairIsFirst(n, '=', '\'', val + "'");
    assert s == n + "='" + (val + "'");
    assert s[k + 2..] == val + "'" + "";
    CharIsFirst(val, '\'', "");
  }

  lemma FilterRoundTrip(f: Filter)
    requires FilterIsNormal(f)
    ensures ParseFilter(PrintFilter(f)) == Parsed(f)
  {
    var s := PrintFilter(f);
    match f
    case Pos(i) => PositionRoundTrip(i);
    case HasAttr(space, key) =>
      IndexNone(s, "='");
      assert s[1..] == PrintName(space, key);
      NameRoundTrip(space, key);
    case AttrVal(space, key, val) =>
      var n := "@" + PrintName(space, key);
      QuotedParts(n, val);
      assert s[1..|n|] == PrintName(space, key);
      NameRoundTrip(space, key);
    case HasChild(space, tag) =>
      IndexNone(s, "='");
      NameRoundTrip(space, tag);
    case ChildText(space, tag, text) =>
      QuotedParts(PrintName(space, tag), text);
      NameRoundTrip(space, tag);
  }

  lemma SelectorRoundTrip(sel: Selector)
    requires SelectorIsNormal(sel)
    ensures ParseSelector(PrintSelector(sel)) == sel
  {
    if sel.ByTag? {
      NameRoundTrip(sel.space, sel.tag);
    }
  }

  // ------------------------------------------------------------------- segments

  lemma ScanOne(scan: FilterScan, piece: string, f: Filter)
    requires scan.Scanning? && FilterIsNormal(f) && piece == PrintFilter(f) + "]"
    ensures ScanStep(scan, piece) == Scanning(scan.filters + [f], scan.err)
  {
    FilterRoundTrip(f);
    assert piece[..|piece| - 1] == PrintFilter(f);
  }

  lemma ScanFiltersNext(pieces: seq<string>, piece: string, fs: seq<Filter>, f: Filter)
    requires ScanFilters(pieces) == Scanning(fs, "") && ScanStep(Scanning(fs, ""), piece) == Scanning(fs + [f], "")
    ensures ScanFilters(pieces + [piece]) == Scanning(fs + [f], "")
  {
    assert (pieces + [piece])[..|pieces|] == pieces;
  }

  lemma ScanOneOf(fs: seq<Filter>, i: nat)
    requires i < |fs| && forall k :: 0 <= k < |fs| ==> FilterIsNormal(fs[k])
    ensures ScanStep(Scanning(fs[..i], ""), FilterPieces(fs)[i]) == Scanning(fs[..i] + [fs[i]], "")
  {
    ScanOne(Scanning(fs[..i], ""), FilterPieces(fs)[i], fs[i]);
  }

  lemma {:induction false} ScanPrinted(fs: seq<Filter>, n: nat)
    requires n <= |fs| && forall i :: 0 <= i < |fs| ==> FilterIsNormal(fs[i])
    ensures ScanFilters(FilterPieces(fs)[..n]) == Scanning(fs[..n], "")
  {
    if n > 0 {
      ScanPrinted(fs, n - 1);
      Snoc(FilterPieces(fs), n - 1);
      Snoc(fs, n - 1);
      ScanOneOf(fs, n - 1);
      ScanFiltersNext(FilterPieces(fs)[..n - 1], FilterPieces(fs)[n - 1], fs[..n - 1], fs[n - 1]);
    }
  }

  lemma SegmentRoundTrip(seg: Segment)
    requires SegmentIsNormal(seg)
    ensures ParseSegment(PrintSegment(seg)) == Parsed(seg)
  {
    var pieces := [PrintSelector(seg.sel)] + FilterPieces(seg.filters);
    forall i | 0 <= i < |pieces| ensures '[' !in pieces[i] {
      if i > 0 {
        assert FilterIsNormal(seg.filters[i - 1]);
      }
    }
    SplitJoin(pieces, '[');
    assert pieces[1..] == FilterPieces(seg.filters);
    var n := |seg.filters|;
    ScanPrinted(seg.filters, n);
    assert FilterPieces(seg.filters)[..n] == FilterPieces(seg.filters) && seg.filters[..n] == seg.filters;
    SelectorRoundTrip(seg.sel);
  }

  lemma {:induction false} JoinAvoids(ps: seq<string>, sep: string, c: char)
    requires c !in sep && forall i :: 0 <= i < |ps| ==> c !in ps[i]
    ensures c !in Join(ps, sep)
  {
    if |ps| > 1 {
      JoinAvoids(ps[1..], sep, c);
    }
  }

  lemma SegmentAvoids(seg: Segment, c: char)
    requires SegmentIsNormal(seg) && c in {'|', '/'}
    ensures c !in PrintSegment(seg)
  {
    var pieces := [PrintSelector(seg.sel)] + FilterPieces(seg.filters);
    forall i | 0 <= i < |pieces| ensures c !in pieces[i] {
      if i > 0 {
        assert FilterIsNormal(seg.filters[i - 1]);
      }
    }
    JoinAvoids(pieces, "[", c);
  }

  // --------------------------------------------------------------------- groups

  lemma {:induction false} JoinSnoc(ps: seq<string>, sep: string, p: string)
    requires ps != []
    ensures Join(ps + [p], sep) == Join(ps, sep) + sep + p
  {
    var all := ps + [p];
    if |ps| == 1 {
      assert all[1..] == [p];
    } else {
      JoinSnoc(ps[1..], sep, p);
      assert all[1..] == ps[1..] + [p];
    }
  }

  lemma {:induction false} JoinLast(ps: seq<string>, sep: string)
    requires ps != [] && ps[|ps| - 1] != ""
    ensures var s := Join(ps, sep); var l := ps[|ps| - 1]; s != "" && s[|s| - 1] == l[|l| - 1]
  {
    if |ps| > 1 {
      JoinLast(ps[1..], sep);
    }
  }

  lemma NoDoubleSlash(s: string)
    ensures |s| >= 2 && (s[|s| - 1] != '/' || s[|s| - 2] != '/') ==> s[|s| - 2..] != "//"
    ensures s != "" && s[0] != '/' ==> !("/" <= s) && !("//" <= s)
  {
    if |s| >= 2 {
      var t := s[|s| - 2..];
      assert t[0] == s[|s| - 2] && t[1] == s[|s| - 1];
    }
  }

  /** A normal group's text is left alone by the completion of // and is not absolute. */
  lemma GroupIsLeftAlone(g: Group)
    requires GroupIsNormal(g)
    ensures FixGroup(PrintGroup(g)) == PrintGroup(g) && !("/" <= PrintGroup(g))
  {
    var ps, s := SegmentTexts(g), PrintGroup(g);
    forall i | 0 <= i < |ps| ensures '/' !in ps[i] {
      SegmentAvoids(g[i], '/');
    }
    var n := |ps| - 1;
    if |g| > 1 {
      assert s[0] == ps[0][0] && ps[0][0] in ps[0];
    }
    if ps[n] != "" {
      JoinLast(ps, "/");
      assert ps[n][|ps[n]| - 1] in ps[n];
    } else if n > 0 {
      JoinSnoc(ps[..n], "/", ps[n]);
      assert ps == ps[..n] + [ps[n]];
      JoinLast(ps[..n], "/");
      var l := ps[n - 1];
      assert l[|l| - 1] in l;
    }
    NoDoubleSlash(s);
  }

  lemma ScanSegmentsNext(pieces: seq<string>, s: string, g: Group, seg: Segment)
    requires ScanSegments(pieces) == Parsed(g) && ParseSegment(s) == Parsed(seg)
    ensures ScanSegments(pieces + [s]) == Parsed(g + [seg])
  {
    assert (pieces + [s])[..|pieces|] == pieces;
  }

  lemma ScanGroupsNext(pieces: seq<string>, s: string, p: Path, g: Group)
    requires ScanGroups(pieces) == Parsed(p) && ParseGroup(s) == Parsed(g)
    ensures ScanGroups(pieces + [s]) == Parsed(p + [g])
  {
    assert (pieces + [s])[..|pieces|] == pieces;
  }

  lemma {:induction false} ScanGroupPrinted(g: Group, n: nat)
    requires n <= |g| && forall i :: 0 <= i < |g| ==> SegmentIsNormal(g[i])
    ensures ScanSegments(SegmentTexts(g)[..n]) == Parsed(g[..n])
  {
    if n > 0 {
      ScanGroupPrinted(g, n - 1);
      SegmentRoundTrip(g[n - 1]);
      Snoc(g, n - 1);
      Snoc(SegmentTexts(g), n - 1);
      ScanSegmentsNext(SegmentTexts(g)[..n - 1], PrintSegment(g[n - 1]), g[..n - 1], g[n - 1]);
    }
  }

  lemma GroupRoundTrip(g: Group)
    requires GroupIsNormal(g)
    ensures ParseGroup(PrintGroup(g)) == Parsed(g)
  {
    GroupIsLeftAlone(g);
    var ps := SegmentTexts(g);
    forall i | 0 <= i < |ps| ensures '/' !in ps[i] {
      SegmentAvoids(g[i], '/');
    }
    SplitJoin(ps, '/');
    ScanGroupPrinted(g, |g|);
    assert ps[..|g|] == ps && g[..|g|] == g;
  }

  lemma GroupAvoidsBar(g: Group)
    requires GroupIsNormal(g)
    ensures '|' !in PrintGroup(g)
  {
    forall i | 0 <= i < |g| ensures '|' !in SegmentTexts(g)[i] {
      SegmentAvoids(g[i], '|');
    }
    JoinAvoids(SegmentTexts(g), "/", '|');
  }

  // ---------------------------------------------------------------------- paths

  lemma {:induction false} ScanPathPrinted(p: Path, n: nat)
    requires n <= |p| && forall i :: 0 <= i < |p| ==> GroupIsNormal(p[i])
    ensures ScanGroups(GroupTexts(p)[..n]) == Parsed(p[..n])
  {
    if n > 0 {
      ScanPathPrinted(p, n - 1);
      GroupRoundTrip(p[n - 1]);
      Snoc(p, n - 1);
      Snoc(GroupTexts(p), n - 1);
      ScanGroupsNext(GroupTexts(p)[..n - 1], PrintGroup(p[n - 1]), p[..n - 1], p[n - 1]);
    }
  }

  /** Compiling the printed form of a path in normal form gives the path back. */
  lemma PathRoundTrips(p: Path)
    requires PathIsNormal(p)
    ensures CompilePath(PrintPath(p)) == Parsed(p)
  {
    forall i | 0 <= i < |p| ensures '|' !in GroupTexts(p)[i] {
      GroupAvoidsBar(p[i]);
    }
    SplitJoin(GroupTexts(p), '|');
    ScanPathPrinted(p, |p|);
    assert GroupTexts(p)[..|p|] == GroupTexts(p) && p[..|p|] == p;
  }

  /** Two normal paths that print alike are the same path. */
  lemma PrintIsInjective(p: Path, q: Path)
    requires PathIsNormal(p) && PathIsNormal(q) && PrintPath(p) == PrintPath(q)
    ensures p == q
  {
    PathRoundTrips(p);
    PathRoundTrips(q);
  }

  // --------------------------------------------------------------------- panics

  predicate IsClosed(piece: string) {
    piece != "" && piece[|piece| - 1] == ']'
  }

  /** A bracket pair is opened and nothing follows before the segment or the next pair. */
  ghost predicate Unguarded(pieces: seq<string>, i: nat) {
    i < |pieces| && pieces[i] == "" && forall j :: 0 <= j < i ==> IsClosed(pieces[j])
  }

  lemma UnguardedFront(pieces: seq<string>, n: nat, i: nat)
    requires n <= |pieces|
    ensures i < n ==> (Unguarded(pieces, i) <==> Unguarded(pieces[..n], i))
  {
    if i < n {
      assert pieces[..n][..i] == pieces[..i];
    }
  }

  lemma StepShape(scan: FilterScan, piece: string)
    ensures ScanStep(scan, piece).Scanning? <==> scan.Scanning? && IsClosed(piece)
    ensures ScanStep(scan, piece).Crashed? <==> scan.Crashed? || (scan.Scanning? && piece == "")
  {
  }

  lemma {:induction false} ScanningExactly(pieces: seq<string>)
    ensures ScanFilters(pieces).Scanning? <==> forall j :: 0 <= j < |pieces| ==> IsClosed(pieces[j])
  {
    if pieces != [] {
      var n := |pieces| - 1;
      ScanningExactly(pieces[..n]);
      StepShape(ScanFilters(pieces[..n]), pieces[n]);
    }
  }

  lemma {:induction false} ScanPanics(pieces: seq<string>)
    ensures ScanFilters(pieces).Crashed? <==> exists i: nat :: Unguarded(pieces, i)
  {
    if pieces != [] {
      var n := |pieces| - 1;
      ScanPanics(pieces[..n]);
      ScanningExactly(pieces[..n]);
      StepShape(ScanFilters(pieces[..n]), pieces[n]);
      if i: nat :| Unguarded(pieces[..n], i) {
        UnguardedFront(pieces, n, i);
      } else if ScanFilters(pieces).Crashed? {
        assert Unguarded(pieces, n);
      } else {
        forall i: nat ensures !Unguarded(pieces, i) {
          UnguardedFront(pieces, n, i);
        }
      }
    }
  }

  /**
   A segment panics exactly when one of its pieces behind an opening bracket is empty and every
   earlier such piece is closed.
   */
  lemma SegmentPanicsExactly(s: string, pieces: seq<string>)
    requires Split(s, '[')[1..] == pieces
    ensures ParseSegment(s).Panicked? <==> exists i: nat :: Unguarded(pieces, i)
  {
    ScanPanics(pieces);
  }

  /** A piece behind an opening bracket is empty, and every earlier one closed. */
  ghost predicate SegmentPanics(s: string) {
    exists i: nat :: Unguarded(Split(s, '[')[1..], i)
  }

  /** The loop of parseGroup and of parsePath: one piece after the other, up to the first that does not parse. */
  function ScanWith<T>(parse: string -> Parse<T>, pieces: seq<string>): (r: Parse<seq<T>>)
  {
    if pieces == [] then Parsed([])
    else
      match ScanWith(parse, pieces[..|pieces| - 1])
      case Failed(e) => Failed(e)
      case Panicked => Panicked
      case Parsed(xs) =>
        match parse(pieces[|pieces| - 1])
        case Parsed(x) => Parsed(xs + [x])
        case Failed(e) => Failed(e)
        case Panicked => Panicked
  }

  /** The j-th piece panics, and the loop gets as far as that piece. */
  predicate PanicsAt<T>(parse: string -> Parse<T>, pieces: seq<string>, j: nat) {
    j < |pieces| && ScanWith(parse, pieces[..j]).Parsed? && parse(pieces[j]).Panicked?
  }

  lemma {:induction false} PanicIsScanned<T>(parse: string -> Parse<T>, pieces: seq<string>, j: nat)
    requires PanicsAt(parse, pieces, j)
    ensures ScanWith(parse, pieces).Panicked?
    decreases |pieces|
  {
    var n := |pieces| - 1;
    if j < n {
      assert pieces[..n][..j] == pieces[..j];
      PanicIsScanned(parse, pieces[..n], j);
    }
  }

  lemma {:induction false} PanickingPiece<T>(parse: string -> Parse<T>, pieces: seq<string>) returns (j: nat)
    requires ScanWith(parse, pieces).Panicked?
    ensures PanicsAt(parse, pieces, j)
  {
    j := |pieces| - 1;
    if ScanWith(parse, pieces[..j]).Panicked? {
      var n := j;
      j := PanickingPiece(parse, pieces[..n]);
      assert pieces[..n][..j] == pieces[..j];
    }
  }

  /** Getting as far as a piece means that every piece before it parses. */
  lemma {:induction false} EveryPieceParses<T>(parse: string -> Parse<T>, pieces: seq<string>, k: nat)
    requires ScanWith(parse, pieces).Parsed? && k < |pieces|
    ensures parse(pieces[k]).Parsed?
    decreases |pieces|
  {
    if k < |pieces| - 1 {
      EveryPieceParses(parse, pieces[..|pieces| - 1], k);
    }
  }

  lemma {:induction false} SegmentsAreScanned(pieces: seq<string>)
    ensures ScanSegments(pieces) == ScanWith(ParseSegment, pieces)
  {
    if pieces != [] {
      SegmentsAreScanned(pieces[..|pieces| - 1]);
    }
  }

  lemma {:induction false} GroupsAreScanned(pieces: seq<string>)
    ensures ScanGroups(pieces) == ScanWith(ParseGroup, pieces)
  {
    if pieces != [] {
      GroupsAreScanned(pieces[..|pieces| - 1]);
    }
  }

  /** The group is not absolute, and the first of its segments that does not parse panics. */
  ghost predicate GroupPanics(s: string) {
    var pieces := Split(FixGroup(s), '/');
    && !("/" <= FixGroup(s))
    && exists j: nat :: j < |pieces| && ScanWith(ParseSegment, pieces[..j]).Parsed? && SegmentPanics(pieces[j])
  }

  lemma SegmentPanicsHere(s: string)
    ensures ParseSegment(s).Panicked? <==> SegmentPanics(s)
  {
    SegmentPanicsExactly(s, Split(s, '[')[1..]);
  }

  lemma GroupPanicsExactly(s: string)
    ensures ParseGroup(s).Panicked? <==> GroupPanics(s)
  {
    var pieces := Split(FixGroup(s), '/');
    SegmentsAreScanned(pieces);
    if ScanSegments(pieces).Panicked? {
      var j := PanickingPiece(ParseSegment, pieces);
      SegmentPanicsHere(pieces[j]);
    }
    if j: nat :| j < |pieces| && ScanWith(ParseSegment, pieces[..j]).Parsed? && SegmentPanics(pieces[j]) {
      SegmentPanicsHere(pieces[j]);
      PanicIsScanned(ParseSegment, pieces, j);
    }
  }

  /** The first of the groups that does not parse panics. */
  ghost predicate PathPanics(s: string) {
    var pieces := Split(s, '|');
    exists j: nat :: j < |pieces| && ScanWith(ParseGroup, pieces[..j]).Parsed? && GroupPanics(pieces[j])
  }

  /**
   The compiler panics if and only if the first group that does not parse is not absolute, and in the
   first segment of it that does not parse a piece behind an opening bracket is empty, with every
   earlier such piece closed.
   */
  lemma CompilePanicsExactly(s: string)
    ensures CompilePath(s).Panicked? <==> PathPanics(s)
  {
    var pieces := Split(s, '|');
    GroupsAreScanned(pieces);
    if CompilePath(s).Panicked? {
      var j := PanickingPiece(ParseGroup, pieces);
      GroupPanicsExactly(pieces[j]);
    }
    if j: nat :| j < |pieces| && ScanWith(ParseGroup, pieces[..j]).Parsed? && GroupPanics(pieces[j]) {
      GroupPanicsExactly(pieces[j]);
      PanicIsScanned(ParseGroup, pieces, j);
    }
  }

  /** Every opening bracket is followed, in its segment, by something other than another one. */
  predicate BracketsHaveText(s: string) {
    forall i :: 0 <= i < |s| && s[i] == '[' ==> i + 1 < |s| && s[i + 1] !in {'[', '/', '|'}
  }

  lemma {:induction false} PiecesKeepText(s: string, sep: char, i: nat)
    requires BracketsHaveText(s) && sep in {'/', '|'} && i < |Split(s, sep)|
    ensures BracketsHaveText(Split(s, sep)[i])
    ensures s != "" && s[0] != sep ==> Split(s, sep)[0] != "" && Split(s, sep)[0][0] == s[0]
  {
    if s != "" {
      assert forall j :: 0 <= j < |s[1..]| ==> s[1..][j] == s[j + 1];
      var rest := Split(s[1..], sep);
      PiecesKeepText(s[1..], sep, 0);
      if s[0] == sep {
        if i > 0 {
          PiecesKeepText(s[1..], sep, i - 1);
        }
      } else if i > 0 {
        PiecesKeepText(s[1..], sep, i);
      } else {
        assert forall j :: 0 < j < |rest[0]| + 1 ==> ([s[0]] + rest[0])[j] == rest[0][j - 1];
      }
    }
  }

  lemma {:induction false} BracketPieces(s: string, i: nat)
    requires BracketsHaveText(s) && 1 <= i < |Split(s, '[')|
    ensures Split(s, '[')[i] != ""
    decreases s
  {
    assert forall j :: 0 <= j < |s[1..]| ==> s[1..][j] == s[j + 1];
    if s[0] == '[' && i == 1 {
      assert s[1] != '[';
    } else {
      BracketPieces(s[1..], if s[0] == '[' then i - 1 else i);
    }
  }

  lemma SegmentIsGuarded(s: string)
    requires BracketsHaveText(s)
    ensures !ParseSegment(s).Panicked?
  {
    var pieces := Split(s, '[')[1..];
    SegmentPanicsExactly(s, pieces);
    if i: nat :| Unguarded(pieces, i) {
      BracketPieces(s, i + 1);
    }
  }

  lemma {:induction false} SegmentsAreGuarded(pieces: seq<string>)
    requires forall i :: 0 <= i < |pieces| ==> BracketsHaveText(pieces[i])
    ensures !ScanSegments(pieces).Panicked?
  {
    if pieces != [] {
      SegmentsAreGuarded(pieces[..|pieces| - 1]);
      SegmentIsGuarded(pieces[|pieces| - 1]);
    }
  }

  lemma GroupIsGuarded(s: string)
    requires BracketsHaveText(s)
    ensures !ParseGroup(s).Panicked?
  {
    var path := FixGroup(s);
    assert BracketsHaveText(path);
    forall i | 0 <= i < |Split(path, '/')| ensures BracketsHaveText(Split(path, '/')[i]) {
      PiecesKeepText(path, '/', i);
    }
    SegmentsAreGuarded(Split(path, '/'));
  }

  lemma {:induction false} GroupsAreGuarded(pieces: seq<string>)
    requires forall i :: 0 <= i < |pieces| ==> BracketsHaveText(pieces[i])
    ensures !ScanGroups(pieces).Panicked?
  {
    if pieces != [] {
      GroupsAreGuarded(pieces[..|pieces| - 1]);
      GroupIsGuarded(pieces[|pieces| - 1]);
    }
  }

  /** No index is out of range when every opening bracket is followed by filter text. */
  lemma CompileIsGuarded(s: string)
    requires BracketsHaveText(s)
    ensures !CompilePath(s).Panicked?
  {
    forall i | 0 <= i < |Split(s, '|')| ensures BracketsHaveText(Split(s, '|')[i]) {
      PiecesKeepText(s, '|', i);
    }
    GroupsAreGuarded(Split(s, '|'));
  }

  lemma SingleGroup(s: string)
    ensures ScanGroups([s]) == match ParseGroup(s)
                               case Parsed(g) => Parsed([g])
                               case Failed(e) => Failed(e)
                               case Panicked => Panicked
  {
    assert [s][..0] == [];
    assert ScanGroups([]) == Parsed([]);
    if ParseGroup(s).Parsed? {
      assert [] + [ParseGroup(s).value] == [ParseGroup(s).value];
    }
  }

  lemma SinglePiece(s: string)
    requires '|' !in s
    ensures CompilePath(s) == ScanGroups([s])
  {
    SplitPiece(s, '|');
  }

  lemma SingleSegment(s: string)
    requires '/' !in s
    ensures ParseSegment(s).Panicked? ==> ParseGroup(s).Panicked?
  {
    if s != "" {
      assert s[0] in s && s[|s| - 1] in s;
    }
    NoDoubleSlash(s);
    SplitPiece(s, '/');
    assert [s][..0] == [];
    assert ScanSegments([]) == Parsed([]);
  }

  lemma {:induction false} SplitSnoc(s: string, sep: char)
    ensures Split(s + [sep], sep) == Split(s, sep) + [""]
  {
    var t := s + [sep];
    if s == "" {
      assert t[1..] == "";
    } else {
      SplitSnoc(s[1..], sep);
      assert t[1..] == s[1..] + [sep];
    }
  }

  /** A segment that ends in an opening bracket panics unless an earlier piece stops the loop. */
  lemma OpenBracketPanicsExactly(s: string)
    ensures ParseSegment(s + "[").Panicked? <==> !ScanFilters(Split(s, '[')[1..]).Stopped?
  {
    var pieces := Split(s, '[')[1..];
    SplitSnoc(s, '[');
    assert Split(s + "[", '[')[1..] == pieces + [""];
    assert (pieces + [""])[..|pieces|] == pieces;
    StepShape(ScanFilters(pieces), "");
  }

  /** The smallest path that panics. */
  lemma OpenBracketPanics()
    ensures CompilePath("a[").Panicked?
  {
    SinglePiece("a[");
    SingleGroup("a[");
    SingleSegment("a[");
    SplitAfter("a", '[', "");
    assert "a" + ['['] + "" == "a[";
    SegmentPanicsExactly("a[", [""]);
    assert Unguarded([""], 0);
  }

  // ------------------------------------------------------------- compiled paths

  lemma {:induction false} SegmentsAreCounted(pieces: seq<string>)
    requires ScanSegments(pieces).Parsed?
    ensures |ScanSegments(pieces).value| == |pieces|
  {
    if pieces != [] {
      SegmentsAreCounted(pieces[..|pieces| - 1]);
    }
  }

  lemma {:induction false} GroupsHaveSegments(pieces: seq<string>)
    requires ScanGroups(pieces).Parsed?
    ensures forall g :: g in ScanGroups(pieces).value ==> g != []
  {
    if pieces != [] {
      var s := pieces[|pieces| - 1];
      GroupsHaveSegments(pieces[..|pieces| - 1]);
      SegmentsAreCounted(Split(FixGroup(s), '/'));
    }
  }

  /** Every compiled path can be evaluated: none of its groups is empty. */
  lemma CompiledHasSegments(s: string)
    requires CompilePath(s).Parsed?
    ensures forall g :: g in CompilePath(s).value ==> g != []
  {
    GroupsHaveSegments(Split(s, '|'));
  }

  // -------------------------------------------------------------------- `//tag`

  lemma PlainSegment(sel: Selector)
    ensures PrintSegment(Segment(sel, [])) == PrintSelector(sel)
  {
    assert [PrintSelector(sel)] + FilterPieces([]) == [PrintSelector(sel)];
  }

  lemma DeepTagText(space: string, tag: string)
    ensures PrintGroup(D.DeepTag(space, tag)[0]) == ".//" + PrintName(space, tag)
  {
    var g, n := D.DeepTag(space, tag)[0], PrintName(space, tag);
    PlainSegment(Self);
    PlainSegment(Descendants);
    PlainSegment(ByTag(space, tag));
    var ps := SegmentTexts(g);
    assert ps == [".", "", n];
    assert ps[1..] == ["", n] && ps[1..][1..] == [n];
    assert Join(["", n], "/") == "" + "/" + n;
  }

  lemma DeepTagIsNormal(space: string, tag: string)
    requires SelectorIsNormal(ByTag(space, tag))
    ensures GroupIsNormal(D.DeepTag(space, tag)[0])
  {
    var g := D.DeepTag(space, tag)[0];
    PlainSegment(Self);
    PlainSegment(ByTag(space, tag));
    assert g[0] == Segment(Self, []) && g[2] == Segment(ByTag(space, tag), []);
    assert g[1] == Segment(Descendants, []);
  }

  /** The queries of lib/controller/bpmn.go: `//space:tag` compiles to a descendant search. */
  lemma DeepTagCompiles(space: string, tag: string)
    requires SelectorIsNormal(ByTag(space, tag))
    ensures CompilePath("//" + PrintName(space, tag)) == Parsed(D.DeepTag(space, tag))
  {
    DeepTagIsNormal(space, tag);
    DeepTagText(space, tag);
    SlashedGroupCompiles(PrintName(space, tag), D.DeepTag(space, tag)[0]);
  }

  lemma SlashedGroupCompiles(n: string, g: Group)
    requires GroupIsNormal(g) && PrintGroup(g) == ".//" + n && '|' !in n
    ensures CompilePath("//" + n) == Parsed([g])
  {
    GroupRoundTrip(g);
    LeadingSlashes(n);
    SinglePiece("//" + n);
    SingleGroup("//" + n);
  }

  /** A leading // means .// */
  lemma LeadingSlashes(n: string)
    ensures ParseGroup("//" + n) == ParseGroup(".//" + n)
  {
    assert "." + ("//" + n) == ".//" + n;
  }
}

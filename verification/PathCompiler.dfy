/** CompilePath and its parse functions (etree/path.go), with their panics and errors. */
module PathCompiler {
  import opened Basics
  import opened PathModel
  import opened Strings

  const ABSOLUTE := "paths cannot be absolute."
  const BRACKETS := "path has invalid filter [brackets]."
  const EMPTY_FILTER := "path contains an empty filter expression."
  const QUOTES := "path has mismatched filter quotes."

  /** The end of a parse: a value, the compiler's error, or an index out of range. */
  datatype Parse<T> = Parsed(value: T) | Failed(err: string) | Panicked

  // -------------------------------------------------------------- small pieces

  /** etree/helpers.go: the part before the first colon and the part behind it. */
  function SpaceDecompose(s: string): (r: (string, string)) {
    var colon := Index(s, ":");
    if colon == -1 then ("", s) else (s[..colon], s[colon + 1..])
  }

  /** etree/helpers.go: the next occurrence of sep at or behind offset. */
  function NextIndex(s: string, sep: string, offset: nat): (i: int)
    requires offset <= |s|
    ensures i == -1 || offset <= i <= |s| - |sep|
  {
    var i := Index(s[offset..], sep);
    if i == -1 then -1 else offset + i
  }

  predicate IsInteger(s: string) {
    forall i :: 0 <= i < |s| ==> IsDigit(s[i]) || (i == 0 && s[i] == '-')
  }

  /** strconv.Atoi with its error ignored: no digits give 0, large numbers the nearest bound. */
  function Atoi(s: string): (n: int)
    requires IsInteger(s)
  {
    if s == "" || s == "-" then 0
    else if s[0] == '-' then
      var n := -(NatOf(s[1..]) as int);
      if n < MIN_INT then MIN_INT else n
    else
      var n := NatOf(s);
      if n > MAX_INT then MAX_INT else n
  }

  function ParseSelector(s: string): (sel: Selector) {
    if s == "." then Self
    else if s == ".." then Parent
    else if s == "*" then Children
    else if s == "" then Descendants
    else var (space, tag) := SpaceDecompose(s); ByTag(space, tag)
  }

  function ParseFilter(s: string): (r: Parse<Filter>)
    ensures r.Failed? ==> r.err != ""
    ensures !r.Panicked?
  {
    if s == "" then Failed(EMPTY_FILTER)
    else
      var eq := Index(s, "='");
      if eq >= 0 then
        var r := NextIndex(s, "'", eq + 2);
        if r != |s| - 1 then Failed(QUOTES)
        else if s[0] == '@' then
          var (space, key) := SpaceDecompose(s[1..eq]);
          Parsed(AttrVal(space, key, s[eq + 2..r]))
        else
          var (space, tag) := SpaceDecompose(s[..eq]);
          Parsed(ChildText(space, tag, s[eq + 2..r]))
      else if s[0] == '@' then
        var (space, key) := SpaceDecompose(s[1..]);
        Parsed(HasAttr(space, key))
      else if IsInteger(s) then
        var pos := Atoi(s);
        Parsed(Pos(if pos > 0 then pos - 1 else pos))
      else
        var (space, tag) := SpaceDecompose(s);
        Parsed(HasChild(space, tag))
  }

  // ------------------------------------------------------- the loops, as folds

  /** The filter loop of parseSegment: an error of a filter does not stop it, the last one counts. */
  datatype FilterScan = Scanning(filters: seq<Filter>, err: string) | Stopped | Crashed

  function ScanStep(scan: FilterScan, piece: string): (r: FilterScan) {
    match scan
    case Stopped => Stopped
    case Crashed => Crashed
    case Scanning(filters, err) =>
      if piece == "" then Crashed
      else if piece[|piece| - 1] != ']' then Stopped
      else
        match ParseFilter(piece[..|piece| - 1])
        case Parsed(f) => Scanning(filters + [f], err)
        case Failed(e) => Scanning(filters, e)
  }

  function ScanFilters(pieces: seq<string>): (r: FilterScan)
  {
    if pieces == [] then Scanning([], "")
    else ScanStep(ScanFilters(pieces[..|pieces| - 1]), pieces[|pieces| - 1])
  }

  function ParseSegment(s: string): (r: Parse<Segment>)
    ensures r.Failed? ==> r.err != ""
  {
    var pieces := Split(s, '[');
    match ScanFilters(pieces[1..])
    case Scanning(filters, err) =>
      if err == "" then Parsed(Segment(ParseSelector(pieces[0]), filters)) else Failed(err)
    case Stopped => Failed(BRACKETS)
    case Crashed => Panicked
  }

  function ScanSegments(pieces: seq<string>): (r: Parse<Group>)
    ensures r.Failed? ==> r.err != ""
  {
    if pieces == [] then Parsed([])
    else
      match ScanSegments(pieces[..|pieces| - 1])
      case Failed(e) => Failed(e)
      case Panicked => Panicked
      case Parsed(segs) =>
        match ParseSegment(pieces[|pieces| - 1])
        case Parsed(seg) => Parsed(segs + [seg])
        case Failed(e) => Failed(e)
        case Panicked => Panicked
  }

  /** A group that starts or ends with // is completed. */
  function FixGroup(s: string): (r: string) {
    var s1 := if "//" <= s then "." + s else s;
    if |s1| >= 2 && s1[|s1| - 2..] == "//" then s1 + "*" else s1
  }

  function ParseGroup(s: string): (r: Parse<Group>)
    ensures r.Failed? ==> r.err != ""
  {
    var path := FixGroup(s);
    if "/" <= path then Failed(ABSOLUTE) else ScanSegments(Split(path, '/'))
  }

  function ScanGroups(pieces: seq<string>): (r: Parse<Path>)
    ensures r.Failed? ==> r.err != ""
  {
    if pieces == [] then Parsed([])
    else
      match ScanGroups(pieces[..|pieces| - 1])
      case Failed(e) => Failed(e)
      case Panicked => Panicked
      case Parsed(groups) =>
        match ParseGroup(pieces[|pieces| - 1])
        case Parsed(g) => Parsed(groups + [g])
        case Failed(e) => Failed(e)
        case Panicked => Panicked
  }

  function CompilePath(s: string): (r: Parse<Path>) {
    ScanGroups(Split(s, '|'))
  }

  // ------------------------------------------------------------- the loops, as run

  /** The compiler object: the parse methods share its error field. */
  class Compiler {
    var err: string

    constructor ()
      ensures err == ""
    {
      err := "";
    }

    /** The character loop of isInteger. */
    static method CheckInteger(s: string) returns (b: bool)
      ensures b == IsInteger(s)
    {
      for i := 0 to |s|
        invariant forall j :: 0 <= j < i ==> IsDigit(s[j]) || (j == 0 && s[j] == '-')
      {
        if (s[i] < '0' || s[i] > '9') && !(i == 0 && s[i] == '-') {
          return false;
        }
      }
      return true;
    }

    method RunFilter(path: string) returns (f: Option<Filter>)
      modifies this
      ensures match ParseFilter(path)
              case Parsed(g) => f == Some(g) && err == old(err)
              case Failed(e) => f == None && err == e
              case Panicked => false
    {
      if |path| == 0 {
        err := EMPTY_FILTER;
        return None;
      }
      var eq := Index(path, "='");
      if eq >= 0 {
        var r := NextIndex(path, "'", eq + 2);
        if r != |path| - 1 {
          err := QUOTES;
          return None;
        }
        if path[0] == '@' {
          var (space, key) := SpaceDecompose(path[1..eq]);
          return Some(AttrVal(space, key, path[eq + 2..r]));
        }
        var (space, tag) := SpaceDecompose(path[..eq]);
        return Some(ChildText(space, tag, path[eq + 2..r]));
      }
      if path[0] == '@' {
        var (space, key) := SpaceDecompose(path[1..]);
        return Some(HasAttr(space, key));
      }
      var isInt := CheckInteger(path);
      if isInt {
        var pos := Atoi(path);
        if pos > 0 {
          return Some(Pos(pos - 1));
        }
        return Some(Pos(pos));
      }
      var (space, tag) := SpaceDecompose(path);
      return Some(HasChild(space, tag));
    }

    /** `panicked` says that the loop indexed an empty piece. */
    method RunSegment(path: string) returns (seg: Segment, panicked: bool)
      requires err == ""
      modifies this
      ensures match ParseSegment(path)
              case Parsed(s) => !panicked && err == "" && seg == s
              case Failed(e) => !panicked && err == e
              case Panicked => panicked
    {
      var pieces := Split(path, '[');
      seg, panicked := Segment(ParseSelector(pieces[0]), []), false;
      ghost var rest := pieces[1..];
      for i := 1 to |pieces|
        invariant seg.sel == ParseSelector(pieces[0]) && !panicked
        invariant ScanFilters(rest[..i - 1]) == Scanning(seg.filters, err)
      {
        assert rest[..i][..i - 1] == rest[..i - 1];
        var fpath := pieces[i];
        if fpath == "" {
          ScanEnds(rest, i);
          panicked := true;
          return;
        }
        if fpath[|fpath| - 1] != ']' {
          ScanEnds(rest, i);
          err := BRACKETS;
          return;
        }
        var f := RunFilter(fpath[..|fpath| - 1]);
        if f.Some? {
          seg := seg.(filters := seg.filters + [f.value]);
        }
      }
      assert rest[..|rest|] == rest;
    }

    method RunSegments(path: string) returns (segments: Group, panicked: bool)
      requires err == ""
      modifies this
      ensures match ScanSegments(Split(path, '/'))
              case Parsed(g) => !panicked && err == "" && segments == g
              case Failed(e) => !panicked && err == e
              case Panicked => panicked
    {
      segments, panicked := [], false;
      var pieces := Split(path, '/');
      for i := 0 to |pieces|
        invariant !panicked && err == "" && ScanSegments(pieces[..i]) == Parsed(segments)
      {
        assert pieces[..i + 1][..i] == pieces[..i];
        var seg, crash := RunSegment(pieces[i]);
        if crash || err != "" {
          SegmentsEnd(pieces, i + 1);
          panicked := crash;
          return;
        }
        segments := segments + [seg];
      }
      assert pieces[..|pieces|] == pieces;
    }

    method RunGroup(s: string) returns (segments: Group, panicked: bool)
      requires err == ""
      modifies this
      ensures match ParseGroup(s)
              case Parsed(g) => !panicked && err == "" && segments == g
              case Failed(e) => !panicked && err == e
              case Panicked => panicked
    {
      var path := s;
      if "//" <= path {
        path := "." + path;
      }
      if |path| >= 2 && path[|path| - 2..] == "//" {
        path := path + "*";
      }
      assert path == FixGroup(s);
      if "/" <= path {
        segments, panicked, err := [], false, ABSOLUTE;
      } else {
        segments, panicked := RunSegments(path);
      }
    }

    method RunPath(path: string) returns (groups: Path, panicked: bool)
      requires err == ""
      modifies this
      ensures match CompilePath(path)
              case Parsed(g) => !panicked && err == "" && groups == g
              case Failed(e) => !panicked && err == e
              case Panicked => panicked
    {
      groups, panicked := [], false;
      var pieces := Split(path, '|');
      for i := 0 to |pieces|
        invariant !panicked && err == "" && ScanGroups(pieces[..i]) == Parsed(groups)
      {
        assert pieces[..i + 1][..i] == pieces[..i];
        var g, crash := RunGroup(pieces[i]);
        if crash || err != "" {
          GroupsEnd(pieces, i + 1);
          panicked := crash;
          return;
        }
        groups := groups + [g];
      }
      assert pieces[..|pieces|] == pieces;
    }
  }

  lemma {:induction false} ScanEnds(pieces: seq<string>, i: nat)
    requires i <= |pieces| && !ScanFilters(pieces[..i]).Scanning?
    ensures ScanFilters(pieces) == ScanFilters(pieces[..i])
    decreases |pieces| - i
  {
    if i < |pieces| {
      assert pieces[..i + 1][..i] == pieces[..i];
      ScanEnds(pieces, i + 1);
    } else {
      assert pieces[..i] == pieces;
    }
  }

  lemma {:induction false} SegmentsEnd(pieces: seq<string>, i: nat)
    requires i <= |pieces| && !ScanSegments(pieces[..i]).Parsed?
    ensures ScanSegments(pieces) == ScanSegments(pieces[..i])
    decreases |pieces| - i
  {
    if i < |pieces| {
      assert pieces[..i + 1][..i] == pieces[..i];
      SegmentsEnd(pieces, i + 1);
    } else {
      assert pieces[..i] == pieces;
    }
  }

  lemma {:induction false} GroupsEnd(pieces: seq<string>, i: nat)
    requires i <= |pieces| && !ScanGroups(pieces[..i]).Parsed?
    ensures ScanGroups(pieces) == ScanGroups(pieces[..i])
    decreases |pieces| - i
  {
    if i < |pieces| {
      assert pieces[..i + 1][..i] == pieces[..i];
      GroupsEnd(pieces, i + 1);
    } else {
      assert pieces[..i] == pieces;
    }
  }
}

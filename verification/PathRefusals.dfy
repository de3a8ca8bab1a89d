/** Which path texts are refused, and how the others are completed (etree/path.go:205-317). */
module PathRefusals {
  import opened Basics
  import opened PathModel
  import opened Strings
  import opened PathCompiler
  import opened PathRoundTrip

  // --------------------------------------------------------------------- filters

  /** The first `='` is at eq. */
  ghost predicate FirstQuote(s: string, eq: nat) {
    Occurs(s, "='", eq) && forall i: nat :: i < eq ==> !Occurs(s, "='", i)
  }

  /** The value behind eq is closed by the last character, and by no other. */
  ghost predicate ClosedAtEnd(s: string, eq: nat) {
    && eq + 2 < |s| && s[|s| - 1] == '\''
    && forall i :: eq + 2 <= i < |s| - 1 ==> s[i] != '\''
  }

  /** The first `='`, if there is one, opens a value that the next quote, the last character, closes. */
  ghost predicate QuotesMatch(s: string) {
    forall eq: nat :: FirstQuote(s, eq) ==> ClosedAtEnd(s, eq)
  }

  lemma IndexOfQuote(s: string)
    ensures Index(s, "='") >= 0 ==> FirstQuote(s, Index(s, "='"))
    ensures forall eq: nat :: FirstQuote(s, eq) ==> Index(s, "='") == eq
  {
    var k := Index(s, "='");
    if k >= 0 {
      forall i: nat | i < k ensures !Occurs(s, "='", i) {
        IndexIsFirst(s, "='", i);
      }
    }
    forall eq: nat | FirstQuote(s, eq) ensures k == eq {
      IndexFirst(s, "='", eq);
    }
  }

  /** The next quote is the last character exactly when the value is closed there. */
  lemma NextQuote(s: string, eq: nat)
    requires eq + 2 <= |s|
    ensures NextIndex(s, "'", eq + 2) == |s| - 1 <==> ClosedAtEnd(s, eq)
  {
    var rest := s[eq + 2..];
    var k := Index(rest, "'");
    if ClosedAtEnd(s, eq) {
      forall i: nat | i < |rest| - 1 ensures !Occurs(rest, "'", i) {
        OccursChar(rest, '\'', i);
      }
      OccursChar(rest, '\'', |rest| - 1);
      IndexFirst(rest, "'", |rest| - 1);
    } else if NextIndex(s, "'", eq + 2) == |s| - 1 {
      OccursChar(rest, '\'', k);
      forall i | eq + 2 <= i < |s| - 1 ensures s[i] != '\'' {
        IndexIsFirst(rest, "'", i - eq - 2);
        OccursChar(rest, '\'', i - eq - 2);
      }
    }
  }

  /** A filter is refused if and only if it is empty or its quotes do not match. */
  lemma FilterRefusedExactly(s: string)
    ensures ParseFilter(s).Failed? <==> s == "" || !QuotesMatch(s)
  {
    IndexOfQuote(s);
    var eq := Index(s, "='");
    if eq >= 0 {
      NextQuote(s, eq);
    }
  }

  // --------------------------------------------------------------------- numbers

  /** `[n]` is the n-th candidate, `[-n]` the n-th from the end, within 64 bits; `[0]` and `[-]` are the first. */
  lemma NumbersParse(n: nat)
    ensures ParseFilter(Decimal(n)) == Parsed(Pos(if n == 0 then 0 else if n > MAX_INT then MAX_INT - 1 else n - 1))
    ensures ParseFilter("-" + Decimal(n)) == Parsed(Pos(if -(n as int) < MIN_INT then MIN_INT else -(n as int)))
    ensures ParseFilter("-") == Parsed(Pos(0))
  {
    PositiveParses(n, Decimal(n));
    NegativeParses(n, "-" + Decimal(n));
    PairIsNowhere("-", '=', '\'');
  }

  lemma PositiveParses(n: nat, s: string)
    requires s == Decimal(n)
    ensures ParseFilter(s) == Parsed(Pos(if n == 0 then 0 else if n > MAX_INT then MAX_INT - 1 else n - 1))
  {
    PairIsNowhere(s, '=', '\'');
    NatOfDecimal(n);
  }

  lemma NegativeParses(n: nat, s: string)
    requires s == "-" + Decimal(n)
    ensures ParseFilter(s) == Parsed(Pos(if -(n as int) < MIN_INT then MIN_INT else -(n as int)))
  {
    PairIsNowhere(s, '=', '\'');
    NatOfDecimal(n);
    assert s[1..] == Decimal(n);
  }

  // -------------------------------------------------------------------- segments

  /** What stands between an opening bracket and the next ends in a closing one and is a filter. */
  ghost predicate PieceFits(piece: string) {
    && piece != "" && piece[|piece| - 1] == ']'
    && piece[..|piece| - 1] != "" && QuotesMatch(piece[..|piece| - 1])
  }

  ghost predicate Faultless(scan: FilterScan) {
    scan.Scanning? && scan.err == ""
  }

  lemma StepFits(scan: FilterScan, piece: string)
    ensures Faultless(ScanStep(scan, piece)) <==> Faultless(scan) && PieceFits(piece)
  {
    if piece != "" && piece[|piece| - 1] == ']' {
      FilterRefusedExactly(piece[..|piece| - 1]);
    }
  }

  lemma {:induction false} ScanFitsExactly(pieces: seq<string>)
    ensures Faultless(ScanFilters(pieces)) <==> forall i :: 0 <= i < |pieces| ==> PieceFits(pieces[i])
  {
    if pieces != [] {
      var n := |pieces| - 1;
      ScanFitsExactly(pieces[..n]);
      StepFits(ScanFilters(pieces[..n]), pieces[n]);
    }
  }

  /** Every opening bracket of the segment opens a filter. */
  ghost predicate SegmentFits(s: string) {
    forall i :: 1 <= i < |Split(s, '[')| ==> PieceFits(Split(s, '[')[i])
  }

  lemma SegmentParsesExactly(s: string)
    ensures ParseSegment(s).Parsed? <==> SegmentFits(s)
  {
    var pieces := Split(s, '[');
    ScanFitsExactly(pieces[1..]);
    assert forall i :: 0 <= i < |pieces| - 1 ==> pieces[1..][i] == pieces[i + 1];
    if SegmentFits(s) {
      forall i | 0 <= i < |pieces[1..]| ensures PieceFits(pieces[1..][i]) {
        assert PieceFits(pieces[i + 1]);
      }
    } else {
      var i :| 1 <= i < |pieces| && !PieceFits(pieces[i]);
      assert pieces[1..][i - 1] == pieces[i];
    }
  }

  // --------------------------------------------------------------------- groups

  ghost predicate EndsInSlashes(s: string) {
    |s| >= 2 && s[|s| - 1] == '/' && s[|s| - 2] == '/'
  }

  lemma EndsExactly(s: string)
    ensures EndsInSlashes(s) <==> |s| >= 2 && s[|s| - 2..] == "//"
  {
    if |s| >= 2 {
      assert s[|s| - 2..] == [s[|s| - 2], s[|s| - 1]];
    }
  }

  lemma SlashesBehindDot(s: string)
    requires "//" <= s
    ensures EndsInSlashes("." + s) <==> EndsInSlashes(s)
  {
    assert |s| >= 2 && ("." + s)[|s|] == s[|s| - 1] && ("." + s)[|s| - 1] == s[|s| - 2];
  }

  /** A group that starts with `//` gets a dot in front, one that ends with it a star behind. */
  lemma CompletedExactly(s: string)
    ensures FixGroup(s) == (if "//" <= s then "." else "") + (s + if EndsInSlashes(s) then "*" else "")
    ensures "/" <= FixGroup(s) <==> "/" <= s && !("//" <= s)
  {
    var s1 := if "//" <= s then "." + s else s;
    EndsExactly(s1);
    if "//" <= s {
      SlashesBehindDot(s);
      Assoc(".", s, "*");
    }
    assert s + "" == s;
  }

  lemma {:induction false} ParsesExactly<T>(parse: string -> Parse<T>, pieces: seq<string>)
    ensures ScanWith(parse, pieces).Parsed? <==> forall i :: 0 <= i < |pieces| ==> parse(pieces[i]).Parsed?
  {
    if pieces != [] {
      var n := |pieces| - 1;
      ParsesExactly(parse, pieces[..n]);
      if ScanWith(parse, pieces).Parsed? {
        forall i | 0 <= i < |pieces| ensures parse(pieces[i]).Parsed? {
          EveryPieceParses(parse, pieces, i);
        }
      } else if ScanWith(parse, pieces[..n]).Parsed? {
        assert !parse(pieces[n]).Parsed?;
      }
    }
  }

  /** The group is not absolute, and every segment of the completed group fits. */
  ghost predicate GroupFits(s: string) {
    && ("/" <= s ==> "//" <= s)
    && forall i :: 0 <= i < |Split(FixGroup(s), '/')| ==> SegmentFits(Split(FixGroup(s), '/')[i])
  }

  lemma {:induction false} SegmentsParseExactly(pieces: seq<string>)
    ensures ScanSegments(pieces).Parsed? <==> forall i :: 0 <= i < |pieces| ==> SegmentFits(pieces[i])
  {
    SegmentsAreScanned(pieces);
    ParsesExactly(ParseSegment, pieces);
    forall i | 0 <= i < |pieces| ensures ParseSegment(pieces[i]).Parsed? <==> SegmentFits(pieces[i]) {
      SegmentParsesExactly(pieces[i]);
    }
  }

  lemma GroupParsesExactly(s: string)
    ensures ParseGroup(s).Parsed? <==> GroupFits(s)
  {
    CompletedExactly(s);
    SegmentsParseExactly(Split(FixGroup(s), '/'));
  }

  lemma {:induction false} GroupsParseExactly(pieces: seq<string>)
    ensures ScanGroups(pieces).Parsed? <==> forall i :: 0 <= i < |pieces| ==> GroupFits(pieces[i])
  {
    GroupsAreScanned(pieces);
    ParsesExactly(ParseGroup, pieces);
    forall i | 0 <= i < |pieces| ensures ParseGroup(pieces[i]).Parsed? <==> GroupFits(pieces[i]) {
      GroupParsesExactly(pieces[i]);
    }
  }

  /** Every group fits, where pieces are the groups. */
  ghost predicate AllFit(pieces: seq<string>) {
    forall i :: 0 <= i < |pieces| ==> GroupFits(pieces[i])
  }

  /**
   A path compiles if and only if every group fits: it is not absolute, and in every segment each opening
   bracket opens a filter that is closed, not empty, and has matching quotes.
   */
  lemma CompilesExactly(s: string)
    ensures CompilePath(s).Parsed? <==> AllFit(Split(s, '|'))
  {
    GroupsParseExactly(Split(s, '|'));
  }
}

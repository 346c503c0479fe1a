/** Absolute paths of an app-server host, under Windows or Unix separators. */
module AppServerPath {
  import opened Orders

  predicate IsAsciiLetter(c: char) {
    'a' <= c <= 'z' || 'A' <= c <= 'Z'
  }

  predicate HasDrive(p: string) {
    |p| >= 3 && IsAsciiLetter(p[0]) && p[1] == ':' && (p[2] == '\\' || p[2] == '/')
  }

  /** A drive path, or one starting with two slashes of the same kind. */
  predicate IsWindows(p: string) {
    HasDrive(p) || (|p| >= 2 && p[0] == p[1] && (p[0] == '\\' || p[0] == '/'))
  }

  predicate IsAbsolute(p: string) {
    (p != [] && p[0] == '/') || IsWindows(p)
  }

  predicate IsSep(windows: bool, c: char) {
    c == '/' || (windows && c == '\\')
  }

  /** The text up to the first separator. */
  function FirstPiece(windows: bool, s: string): (piece: string)
    ensures |piece| <= |s|
  {
    if s == [] || IsSep(windows, s[0]) then [] else [s[0]] + FirstPiece(windows, s[1..])
  }

  /** Splits at every separator. */
  function Split(windows: bool, s: string): seq<string>
    decreases |s|
  {
    var piece := FirstPiece(windows, s);
    if |piece| == |s| then [s] else [piece] + Split(windows, s[|piece|+1..])
  }

  function NonEmpty(pieces: seq<string>): seq<string> {
    if pieces == [] then []
    else if pieces[0] == "" then NonEmpty(pieces[1..])
    else [pieces[0]] + NonEmpty(pieces[1..])
  }

  /** The non-empty pieces of a text. */
  function Pieces(windows: bool, s: string): seq<string> {
    NonEmpty(Split(windows, s))
  }

  function Components(p: string): seq<string> {
    Pieces(IsWindows(p), p)
  }

  function TrimSeps(windows: bool, s: string): string {
    if s != [] && IsSep(windows, s[|s|-1]) then TrimSeps(windows, s[..|s|-1]) else s
  }

  function Join(p: string, segment: string): string {
    var windows := IsWindows(p);
    TrimSeps(windows, p) + [if windows then '\\' else '/'] + segment
  }

  function JoinAll(p: string, segments: seq<string>): string {
    if segments == [] then p else Join(JoinAll(p, segments[..|segments|-1]), segments[|segments|-1])
  }

  // ----- Splitting -----

  ghost predicate NoSep(windows: bool, s: string) {
    forall c :: c in s ==> !IsSep(windows, c)
  }

  lemma {:induction false} FirstPieceIs(windows: bool, s: string)
    ensures var n := |FirstPiece(windows, s)|;
            && FirstPiece(windows, s) == s[..n] && NoSep(windows, s[..n])
            && (n < |s| ==> IsSep(windows, s[n]))
  {
    if s != [] && !IsSep(windows, s[0]) {
      FirstPieceIs(windows, s[1..]);
    }
  }

  lemma {:induction false} FirstPieceConcat(windows: bool, a: string, c: char, b: string)
    requires IsSep(windows, c)
    ensures FirstPiece(windows, a + [c] + b) == FirstPiece(windows, a)
  {
    var s := a + [c] + b;
    if a != [] && !IsSep(windows, a[0]) {
      assert s[1..] == a[1..] + [c] + b;
      FirstPieceConcat(windows, a[1..], c, b);
    }
  }

  lemma {:induction false} SplitConcat(windows: bool, a: string, c: char, b: string)
    requires IsSep(windows, c)
    ensures Split(windows, a + [c] + b) == Split(windows, a) + Split(windows, b)
    decreases |a|
  {
    var s, piece := a + [c] + b, FirstPiece(windows, a);
    FirstPieceConcat(windows, a, c, b);
    FirstPieceIs(windows, a);
    if |piece| == |a| {
      assert s[|piece|+1..] == b;
      assert piece == a;
    } else {
      var rest := a[|piece|+1..];
      assert s[|piece|+1..] == rest + [c] + b;
      SplitConcat(windows, rest, c, b);
      Assoc([piece], Split(windows, rest), Split(windows, b));
    }
  }

  lemma {:induction false} NonEmptyConcat(a: seq<string>, b: seq<string>)
    ensures NonEmpty(a + b) == NonEmpty(a) + NonEmpty(b)
  {
    if a == [] {
      assert a + b == b;
    } else {
      NonEmptyConcat(a[1..], b);
      assert (a + b)[0] == a[0] && (a + b)[1..] == a[1..] + b;
      Assoc([a[0]], NonEmpty(a[1..]), NonEmpty(b));
    }
  }

  /** A separator between two texts separates their pieces. */
  lemma {:induction false} PiecesConcat(windows: bool, a: string, c: char, b: string)
    requires c == '/' || (windows && c == '\\')
    ensures Pieces(windows, a + [c] + b) == Pieces(windows, a) + Pieces(windows, b)
  {
    SplitConcat(windows, a, c, b);
    NonEmptyConcat(Split(windows, a), Split(windows, b));
  }

  /** A text without separators is its own only piece; with `PiecesConcat` this fixes all pieces. */
  lemma {:induction false} PiecesOfWhole(windows: bool, s: string)
    requires '/' !in s && (windows ==> '\\' !in s)
    ensures Pieces(windows, s) == if s == [] then [] else [s]
  {
    FirstPieceIs(windows, s);
    var n := |FirstPiece(windows, s)|;
    assert forall i :: 0 <= i < |s| ==> s[i] in s;
    var split: seq<string> := [s];
    assert Split(windows, s) == split;
    assert NonEmpty(split[1..]) == [];
  }

  lemma {:induction false} TrimKeepsPieces(windows: bool, s: string)
    ensures Pieces(windows, TrimSeps(windows, s)) == Pieces(windows, s)
    ensures TrimSeps(windows, s) <= s
  {
    if s != [] && IsSep(windows, s[|s|-1]) {
      var n := |s| - 1;
      TrimKeepsPieces(windows, s[..n]);
      assert s == s[..n] + [s[n]] + [];
      PiecesConcat(windows, s[..n], s[n], []);
      assert Split(windows, []) == [[]];
      assert NonEmpty([[]]) == NonEmpty([]);
    }
  }

  /** Only separators means no pieces, and the other way round. */
  lemma {:induction false} NoPiecesIff(windows: bool, s: string)
    ensures Pieces(windows, s) == [] <==> TrimSeps(windows, s) == []
  {
    TrimKeepsPieces(windows, s);
    var t := TrimSeps(windows, s);
    TrimEnds(windows, s);
    if t == [] {
      assert Split(windows, []) == [[]];
      assert NonEmpty([[]]) == NonEmpty([]);
    } else {
      LastPiece(windows, t);
    }
  }

  lemma {:induction false} TrimEnds(windows: bool, s: string)
    ensures var t := TrimSeps(windows, s); t != [] ==> !IsSep(windows, t[|t|-1])
  {
    if s != [] && IsSep(windows, s[|s|-1]) {
      TrimEnds(windows, s[..|s|-1]);
    }
  }

  /** A text that ends in no separator has a piece. */
  lemma {:induction false} LastPiece(windows: bool, s: string)
    requires s != [] && !IsSep(windows, s[|s|-1])
    ensures Pieces(windows, s) != []
    decreases |s|
  {
    FirstPieceIs(windows, s);
    var piece := FirstPiece(windows, s);
    if |piece| < |s| {
      var rest := s[|piece|+1..];
      assert rest != [] && rest[|rest|-1] == s[|s|-1];
      LastPiece(windows, rest);
      NonEmptyConcat([piece], Split(windows, rest));
    }
  }

  /** Trailing separators are all that trimming removes. */
  lemma {:induction false} TrimSepsIs(windows: bool, t: string, seps: string)
    requires forall c :: c in seps ==> IsSep(windows, c)
    requires t == [] || !IsSep(windows, t[|t|-1])
    ensures TrimSeps(windows, t + seps) == t
  {
    if seps == [] {
      assert t + seps == t;
    } else {
      var n := |seps| - 1;
      TrimSepsIs(windows, t, seps[..n]);
      assert seps[n] in seps;
      assert (t + seps)[..|t + seps| - 1] == t + seps[..n];
    }
  }

  // ----- Joining -----

  /** The Windows forms: a drive with a separator, or two slashes of one kind. */
  lemma {:induction false} WindowsIff(p: string)
    ensures IsWindows(p) <==>
            || "//" <= p || "\\\\" <= p
            || (|p| >= 3 && ('a' <= p[0] <= 'z' || 'A' <= p[0] <= 'Z') && (":/" <= p[1..] || ":\\" <= p[1..]))
    ensures IsAbsolute(p) <==> "/" <= p || IsWindows(p)
  {
    assert |p| >= 2 ==> ("//" <= p <==> p[0] == '/' && p[1] == '/');
    assert |p| >= 2 ==> ("\\\\" <= p <==> p[0] == '\\' && p[1] == '\\');
    if |p| >= 3 {
      var rest := p[1..];
      assert ":/" <= rest <==> rest[0] == ':' && rest[1] == '/';
      assert ":\\" <= rest <==> rest[0] == ':' && rest[1] == '\\';
    }
  }

  /** Every base is a text that ends in no separator, and then separators. */
  lemma {:induction false} BaseSplits(windows: bool, p: string) returns (t: string, seps: string)
    ensures p == t + seps && (forall c :: c in seps ==> c == '/' || (windows && c == '\\'))
    ensures t != [] ==> t[|t|-1] != '/' && (windows ==> t[|t|-1] != '\\')
  {
    if p != [] && IsSep(windows, p[|p|-1]) {
      var n := |p| - 1;
      t, seps := BaseSplits(windows, p[..n]);
      seps := seps + [p[n]];
    } else {
      t, seps := p, [];
    }
  }

  /** The joined text: the base without its trailing separators, one separator of the base's style,
      and the segment as it is. */
  lemma {:induction false} JoinText(t: string, seps: string, segment: string)
    requires forall c :: c in seps ==> c == '/' || (IsWindows(t + seps) && c == '\\')
    requires t != [] ==> t[|t|-1] != '/' && (IsWindows(t + seps) ==> t[|t|-1] != '\\')
    ensures Join(t + seps, segment) == t + (if IsWindows(t + seps) then "\\" else "/") + segment
  {
    TrimSepsIs(IsWindows(t + seps), t, seps);
  }

  /** Under the base's separators, joining always adds the segment's pieces to the base's. */
  lemma {:induction false} JoinPieces(p: string, segment: string)
    ensures Pieces(IsWindows(p), Join(p, segment)) == Components(p) + Pieces(IsWindows(p), segment)
  {
    var windows := IsWindows(p);
    PiecesConcat(windows, TrimSeps(windows, p), if windows then '\\' else '/', segment);
    TrimKeepsPieces(windows, p);
  }

  /** The joined path is absolute, of the base's style, and lists the base's components and then
      the segment's pieces. */
  ghost predicate JoinsCleanly(p: string, segment: string) {
    var j := Join(p, segment);
    && IsAbsolute(j) && IsWindows(j) == IsWindows(p)
    && Components(j) == Components(p) + Pieces(IsWindows(p), segment)
  }

  /** A base without components needs the segment to supply its second slash, or not to. */
  predicate RootJoinSafe(windows: bool, segment: string) {
    if windows then segment != [] && segment[0] == '\\' else segment == [] || segment[0] != '/'
  }

  lemma JoinKeepsStyle(p: string, segment: string)
    requires IsAbsolute(p) && Components(p) != []
    ensures IsAbsolute(Join(p, segment)) && IsWindows(Join(p, segment)) == IsWindows(p)
  {
    var windows := IsWindows(p);
    var t, j := TrimSeps(windows, p), Join(p, segment);
    NoPiecesIff(windows, p);
    TrimKeepsPieces(windows, p);
    TrimEnds(windows, p);
    assert t == p[..|t|];
    assert forall i :: 0 <= i < |t| ==> j[i] == p[i];
    if HasDrive(p) {
      DriveTrim(windows, p);
      assert j[|t|] == '\\';
    } else {
      assert |t| >= 2;
    }
  }

  /** Trimming a drive path keeps at least the drive. */
  lemma {:induction false} DriveTrim(windows: bool, p: string)
    requires |p| >= 2 && !IsSep(windows, p[1])
    ensures |TrimSeps(windows, p)| >= 2
  {
    if IsSep(windows, p[|p|-1]) {
      DriveTrim(windows, p[..|p|-1]);
    }
  }

  lemma RootJoin(p: string, segment: string)
    requires IsAbsolute(p) && Components(p) == []
    ensures IsAbsolute(Join(p, segment)) && IsWindows(Join(p, segment)) == IsWindows(p) <==> RootJoinSafe(IsWindows(p), segment)
  {
    NoPiecesIff(IsWindows(p), p);
    var j := Join(p, segment);
    assert j == [if IsWindows(p) then '\\' else '/'] + segment;
  }

  /** Joining onto an absolute base works if and only if the base has a component, or the
      segment starts as the bare root needs. */
  lemma {:induction false} JoinCleanIff(p: string, segment: string)
    requires IsAbsolute(p)
    ensures JoinsCleanly(p, segment) <==> Components(p) != [] || RootJoinSafe(IsWindows(p), segment)
  {
    JoinPieces(p, segment);
    if Components(p) != [] {
      JoinKeepsStyle(p, segment);
    } else {
      RootJoin(p, segment);
    }
  }

  function AllPieces(windows: bool, segments: seq<string>): seq<string> {
    if segments == [] then []
    else AllPieces(windows, segments[..|segments|-1]) + Pieces(windows, segments[|segments|-1])
  }

  /** The whole chain of joins ends absolute, of the base's style, with the base's components and
      then the pieces of the segments in order. */
  ghost predicate JoinsAllCleanly(p: string, segments: seq<string>) {
    var j := JoinAll(p, segments);
    && IsAbsolute(j) && IsWindows(j) == IsWindows(p)
    && Components(j) == Components(p) + AllPieces(IsWindows(p), segments)
  }

  /** Every segment up to and including the first that has a piece starts as a bare root needs. */
  ghost predicate LeadSafely(windows: bool, segments: seq<string>) {
    forall i :: 0 <= i < |segments| && AllPieces(windows, segments[..i]) == [] ==> RootJoinSafe(windows, segments[i])
  }

  /** Starts with a single backslash: neither absolute nor ever made absolute by a join. */
  predicate Lost(p: string) {
    p != [] && p[0] == '\\' && !IsWindows(p)
  }

  /** Has left the base's style for good. */
  predicate Drifted(windows: bool, p: string) {
    Lost(p) || (!windows && IsWindows(p))
  }

  lemma LostStaysLost(p: string, segment: string)
    requires Lost(p)
    ensures Lost(Join(p, segment))
  {
    TrimKeepsPieces(false, p);
    KeepsFirst(p);
    var t, j := TrimSeps(false, p), Join(p, segment);
    assert t == p[..|t|];
    assert forall i :: 0 <= i < |t| ==> j[i] == p[i];
  }

  lemma {:induction false} KeepsFirst(p: string)
    requires p != [] && p[0] != '/'
    ensures TrimSeps(false, p) != []
  {
    if p[|p|-1] == '/' { KeepsFirst(p[..|p|-1]); }
  }

  /** A Windows path stays one or is lost. */
  lemma WindowsJoin(p: string, segment: string)
    requires IsWindows(p)
    ensures IsWindows(Join(p, segment)) || Lost(Join(p, segment))
  {
    if Components(p) != [] {
      JoinKeepsStyle(p, segment);
    } else {
      NoPiecesIff(true, p);
      assert Join(p, segment)[0] == '\\';
    }
  }

  /** A join that is not clean leaves the base's style for good. */
  lemma UncleanDrifts(p: string, segment: string)
    requires IsAbsolute(p) && !JoinsCleanly(p, segment)
    ensures Drifted(IsWindows(p), Join(p, segment))
  {
    JoinCleanIff(p, segment);
    NoPiecesIff(IsWindows(p), p);
    assert Join(p, segment) == [if IsWindows(p) then '\\' else '/'] + segment;
  }

  lemma DriftedStays(windows: bool, p: string, segment: string)
    requires Drifted(windows, p)
    ensures Drifted(windows, Join(p, segment))
  {
    if Lost(p) {
      LostStaysLost(p, segment);
    } else {
      WindowsJoin(p, segment);
    }
  }

  lemma LeadSafelySnoc(windows: bool, segments: seq<string>)
    requires segments != []
    ensures var n := |segments| - 1;
            LeadSafely(windows, segments) <==>
            LeadSafely(windows, segments[..n]) && (AllPieces(windows, segments[..n]) == [] ==> RootJoinSafe(windows, segments[n]))
  {
    var n := |segments| - 1;
    assert forall i :: 0 <= i < n ==> segments[..n][..i] == segments[..i] && segments[..n][i] == segments[i];
  }

  lemma {:induction false} JoinAllOutcome(p: string, segments: seq<string>)
    requires IsAbsolute(p)
    ensures if Components(p) != [] || LeadSafely(IsWindows(p), segments) then JoinsAllCleanly(p, segments)
            else Drifted(IsWindows(p), JoinAll(p, segments))
    decreases |segments|
  {
    var windows := IsWindows(p);
    if segments != [] {
      var n := |segments| - 1;
      var q := JoinAll(p, segments[..n]);
      JoinAllOutcome(p, segments[..n]);
      LeadSafelySnoc(windows, segments);
      if Components(p) != [] || LeadSafely(windows, segments[..n]) {
        JoinCleanIff(q, segments[n]);
        if JoinsCleanly(q, segments[n]) {
          Assoc(Components(p), AllPieces(windows, segments[..n]), Pieces(windows, segments[n]));
        } else {
          UncleanDrifts(q, segments[n]);
        }
      } else {
        DriftedStays(windows, q, segments[n]);
      }
    }
  }

  /**
   For every absolute base and list of segments: the joins end absolute, of the base's style and
   with all components in order if and only if the base has a component, or every segment up to
   the first with a piece starts as the bare root needs.
   */
  lemma {:induction false} JoinAllCleanIff(p: string, segments: seq<string>)
    requires IsAbsolute(p)
    ensures JoinsAllCleanly(p, segments) <==> Components(p) != [] || LeadSafely(IsWindows(p), segments)
  {
    JoinAllOutcome(p, segments);
  }

  /** Bare roots that a segment takes off their style: `/` joined with `/x`, and `//` with `srv`. */
  lemma BareRootsFail()
    ensures IsAbsolute("/") && !JoinsCleanly("/", "/x")
    ensures IsAbsolute("//") && !JoinsCleanly("//", "srv")
  {
    NoPiecesIff(false, "/");
    NoPiecesIff(true, "//");
    assert "/"[..0] == "" && "//"[..1] == "/";
    JoinCleanIff("/", "/x");
    JoinCleanIff("//", "srv");
  }
}

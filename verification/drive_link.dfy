/**
 * `toDriveView` (app/draft/teams/page.tsx and app/draft/players/page.tsx,
 * two copies identical apart from a comment): turns a Google Drive sharing
 * link into a direct image link by running
 * `url.match(/(?:id=|file\/d\/)([\w-]+)/)`.
 */
module DriveLink {
  import opened Maybe

  const ViewPrefix: string := "https://drive.google.com/uc?export=view&id="
  const IdMarker: string := "id="
  const FileMarker: string := "file/d/"

  /** `[\w-]` without the `u` flag: ASCII letters, digits, `_` and `-`. */
  predicate IsWordChar(c: char) {
    'A' <= c <= 'Z' || 'a' <= c <= 'z' || '0' <= c <= '9' || c == '_' || c == '-'
  }

  /** `w` occurs in `u` starting at position `i`. */
  predicate HasAt(u: string, i: nat, w: string) {
    i + |w| <= |u| && u[i..i + |w|] == w
  }

  /**
   * Where the capture group starts when the alternation `id=|file\/d\/`
   * matches at `i` (the first alternative is tried first).
   */
  function GroupStart(u: string, i: nat): (r: Option<nat>)
    ensures r.Some? ==> r.value <= |u|
    ensures r.None? <==> !HasAt(u, i, IdMarker) && !HasAt(u, i, FileMarker)
  {
    if HasAt(u, i, IdMarker) then Some(i + |IdMarker|)
    else if HasAt(u, i, FileMarker) then Some(i + |FileMarker|)
    else None
  }

  /** The end of the greedy `[\w-]+` run that starts at `k`. */
  function RunEnd(u: string, k: nat): (e: nat)
    requires k <= |u|
    ensures k <= e <= |u|
    ensures forall j :: k <= j < e ==> IsWordChar(u[j])
    ensures e == |u| || !IsWordChar(u[e])
    decreases |u| - k
  {
    if k < |u| && IsWordChar(u[k]) then RunEnd(u, k + 1) else k
  }

  /** The whole pattern matches at `i`: a marker followed by at least one word character. */
  predicate MatchesAt(u: string, i: nat) {
    var g := GroupStart(u, i);
    g.Some? && g.value < RunEnd(u, g.value)
  }

  /** `i` is where `String.prototype.match` reports its match: the leftmost one. */
  predicate IsLeftmostMatch(u: string, i: nat) {
    i < |u| && MatchesAt(u, i) && forall j :: 0 <= j < i ==> !MatchesAt(u, j)
  }

  /** `m[1]` for a match at `i`: the maximal word run after the marker. */
  function CaptureAt(u: string, i: nat): (r: string)
    requires MatchesAt(u, i)
    ensures |r| > 0
    ensures forall j :: 0 <= j < |r| ==> IsWordChar(r[j])
  {
    var g := GroupStart(u, i).value;
    u[g..RunEnd(u, g)]
  }

  /** The leftmost position at or after `from` where the pattern matches. */
  function FirstMatch(u: string, from: nat): (r: Option<nat>)
    requires from <= |u|
    ensures r.Some? ==> from <= r.value < |u| && MatchesAt(u, r.value)
    ensures r.Some? ==> forall j :: from <= j < r.value ==> !MatchesAt(u, j)
    ensures r.None? ==> forall j :: from <= j < |u| ==> !MatchesAt(u, j)
    decreases |u| - from
  {
    if from == |u| then None
    else if MatchesAt(u, from) then Some(from)
    else FirstMatch(u, from + 1)
  }

  /** `toDriveView(url)`; `None` stands for `undefined`. */
  function ToDriveView(url: Option<string>): (r: string)
    ensures url.None? || url == Some("") ==> r == ""
    ensures url.Some? && (forall j :: 0 <= j < |url.value| ==> !MatchesAt(url.value, j)) ==>
      r == url.value
    ensures url.Some? ==> forall i :: IsLeftmostMatch(url.value, i) ==>
      r == ViewPrefix + CaptureAt(url.value, i)
  {
    match url
    case None => ""
    case Some(u) =>
      if u == "" then ""
      else
        match FirstMatch(u, 0)
        case None => u
        case Some(i) =>
          assert forall i' :: IsLeftmostMatch(u, i') ==> i' == i;
          ViewPrefix + CaptureAt(u, i)
  }

  /** No word character at position `e`: the run cannot be extended there. */
  predicate RunStopsAt(u: string, e: nat) {
    e >= |u| || !IsWordChar(u[e])
  }

  /**
   * The regular expression's meaning, stated independently of the scan: at
   * `i` one of the two markers, right after it the non-empty run `g` of word
   * characters, and no word character after `g` (the `+` is greedy and
   * nothing follows the group in the pattern).
   */
  predicate GroupMatch(u: string, i: nat, g: string) {
    && g != []
    && (forall k :: 0 <= k < |g| ==> IsWordChar(g[k]))
    && (|| (HasAt(u, i, IdMarker) && HasAt(u, i + |IdMarker|, g) && RunStopsAt(u, i + |IdMarker| + |g|))
        || (HasAt(u, i, FileMarker) && HasAt(u, i + |FileMarker|, g) && RunStopsAt(u, i + |FileMarker| + |g|)))
  }

  /** A word run that cannot be extended is the greedy run. */
  lemma RunEndUnique(u: string, k: nat, e: nat)
    requires k <= e <= |u|
    requires forall j :: k <= j < e ==> IsWordChar(u[j])
    requires RunStopsAt(u, e)
    ensures RunEnd(u, k) == e
  {
  }

  /** A match found by the scan is a match of the regular expression, with the captured group. */
  lemma CaptureIsGroup(u: string, i: nat)
    requires MatchesAt(u, i)
    ensures GroupMatch(u, i, CaptureAt(u, i))
  {
    var start := GroupStart(u, i).value;
    var g := CaptureAt(u, i);
    assert g == u[start..RunEnd(u, start)];
    assert HasAt(u, start, g);
    assert RunStopsAt(u, start + |g|);
  }

  /** A match of the regular expression with group `g` is found by the scan, capturing `g`. */
  lemma GroupIsCapture(u: string, i: nat, g: string)
    requires GroupMatch(u, i, g)
    ensures MatchesAt(u, i) && CaptureAt(u, i) == g
  {
    var m := if HasAt(u, i, IdMarker) then IdMarker else FileMarker;
    if HasAt(u, i, FileMarker) {
      assert u[i] == u[i..i + |FileMarker|][0] == 'f';
      assert !HasAt(u, i, IdMarker);
    }
    assert HasAt(u, i, m) && HasAt(u, i + |m|, g) && RunStopsAt(u, i + |m| + |g|);
    assert GroupStart(u, i) == Some(i + |m|);
    forall j | i + |m| <= j < i + |m| + |g| ensures IsWordChar(u[j]) {
      assert u[j] == u[i + |m|..i + |m| + |g|][j - (i + |m|)] == g[j - (i + |m|)];
    }
    RunEndUnique(u, i + |m|, i + |m| + |g|);
  }

  /**
   * The scan captures `g` at `i` exactly when the regular expression has a
   * match at `i` whose group is `g`; the order of the two alternatives never
   * matters, since they begin with different characters.
   */
  lemma CaptureMeansGroupMatch(u: string, i: nat, g: string)
    ensures (MatchesAt(u, i) && CaptureAt(u, i) == g) <==> GroupMatch(u, i, g)
  {
    if GroupMatch(u, i, g) {
      GroupIsCapture(u, i, g);
    }
    if MatchesAt(u, i) {
      CaptureIsGroup(u, i);
    }
  }

  /** Neither marker can start inside `w`, whatever follows it. */
  predicate MarkerFree(w: string) {
    forall j :: 0 <= j < |w| ==> NoMarkerStartAt(w, j)
  }

  /** Position `j` of `w` is no `f`, and an `i` there is followed, inside `w`, by something other than `d`. */
  predicate NoMarkerStartAt(w: string, j: nat)
    requires j < |w|
  {
    w[j] != 'f' && (w[j] == 'i' ==> j + 1 < |w| && w[j + 1] != 'd')
  }

  /** Where `NoMarkerStartAt` holds, the pattern cannot match. */
  lemma NoMatchWhereFree(u: string, j: nat)
    requires j < |u| && NoMarkerStartAt(u, j)
    ensures !MatchesAt(u, j)
  {
    if j + |IdMarker| <= |u| {
      assert u[j..j + |IdMarker|][0] == u[j] && u[j..j + |IdMarker|][1] == u[j + 1];
    }
    if j + |FileMarker| <= |u| {
      assert u[j..j + |FileMarker|][0] == u[j];
    }
  }

  /** A rewritten link is its own rewrite: its leftmost match is the `id=` the prefix ends with. */
  lemma RewrittenIsFixed(g: string)
    requires g != [] && forall k :: 0 <= k < |g| ==> IsWordChar(g[k])
    ensures ToDriveView(Some(ViewPrefix + g)) == ViewPrefix + g
  {
    var head := "https://drive.google.com/uc?export=view&";
    assert MarkerFree(head);
    assert head + IdMarker + g + "" == ViewPrefix + g;
    MarkerFreeHead(ViewPrefix + g, head);
    RewriteAfterHead(ViewPrefix + g, head, IdMarker, g, "");
  }

  /** Rewriting an already rewritten link gives the same link. */
  lemma ToDriveViewIdempotent(url: Option<string>)
    ensures ToDriveView(Some(ToDriveView(url))) == ToDriveView(url)
  {
    if url.Some? && url.value != "" {
      var u := url.value;
      match FirstMatch(u, 0)
      case None =>
      case Some(i) =>
        RewrittenIsFixed(CaptureAt(u, i));
    }
  }

  /** A marker-free prefix of `u` holds no match, whatever follows it. */
  lemma MarkerFreeHead(u: string, w: string)
    requires |w| <= |u| && u[..|w|] == w
    requires MarkerFree(w)
    ensures forall j :: 0 <= j < |w| ==> !MatchesAt(u, j)
  {
    forall j | 0 <= j < |w| ensures !MatchesAt(u, j) {
      assert NoMarkerStartAt(w, j);
      assert u[j] == w[j];
      if j + 1 < |w| {
        assert u[j + 1] == w[j + 1];
      }
      NoMatchWhereFree(u, j);
    }
  }

  /**
   * A link made of a head where the pattern never matches, a marker, a word
   * run `g` and a tail that does not continue the run rewrites to the view
   * link for `g`.
   */
  lemma RewriteAfterHead(u: string, head: string, marker: string, g: string, tail: string)
    requires u == head + marker + g + tail
    requires forall j :: 0 <= j < |head| ==> !MatchesAt(u, j)
    requires marker == IdMarker || marker == FileMarker
    requires g != [] && forall k :: 0 <= k < |g| ==> IsWordChar(g[k])
    requires tail == [] || !IsWordChar(tail[0])
    ensures ToDriveView(Some(u)) == ViewPrefix + g
  {
    var i := |head|;
    assert u[i..i + |marker|] == marker;
    assert u[i + |marker|..i + |marker| + |g|] == g;
    if tail != [] {
      assert u[i + |marker| + |g|] == tail[0];
    }
    assert GroupMatch(u, i, g);
    CaptureMeansGroupMatch(u, i, g);
    assert IsLeftmostMatch(u, i);
  }

  /** Link heads used by the examples below; neither contains a marker. */
  const DriveHost: string := "https://drive.google.com/"
  const OpenHead: string := "https://drive.google.com/open?"

  lemma HostHeadsMarkerFree()
    ensures MarkerFree(OpenHead) && MarkerFree(DriveHost)
  {
  }

  /** The sharing link of the doc comment becomes the direct view link. */
  lemma OpenLinkExample(u: string)
    requires u == "https://drive.google.com/open?id=FILE_ID"
    ensures ToDriveView(Some(u)) == ViewPrefix + "FILE_ID"
  {
    var g := "FILE_ID";
    assert u == OpenHead + IdMarker + g + "" && u[..|OpenHead|] == OpenHead;
    assert g != [] && forall k :: 0 <= k < |g| ==> IsWordChar(g[k]);
    HostHeadsMarkerFree();
    MarkerFreeHead(u, OpenHead);
    RewriteAfterHead(u, OpenHead, IdMarker, g, "");
  }

  /** The `file/d/` form is captured like `id=`, the run stopping at the next `/`. */
  lemma FilePathExample(u: string)
    requires u == "https://drive.google.com/file/d/1AbC-x_9/view"
    ensures ToDriveView(Some(u)) == ViewPrefix + "1AbC-x_9"
  {
    var g, tail := "1AbC-x_9", "/view";
    assert u == DriveHost + FileMarker + g + tail && u[..|DriveHost|] == DriveHost;
    assert g != [] && forall k :: 0 <= k < |g| ==> IsWordChar(g[k]);
    assert !IsWordChar(tail[0]);
    HostHeadsMarkerFree();
    MarkerFreeHead(u, DriveHost);
    RewriteAfterHead(u, DriveHost, FileMarker, g, tail);
  }

  /** A marker with no word character after it is skipped; the scan goes on to a later one. */
  lemma BareMarkerSkipped(u: string)
    requires u == "?id=&file/d/xyz"
    ensures ToDriveView(Some(u)) == "https://drive.google.com/uc?export=view&id=xyz"
  {
    var head := "?id=&";
    assert u == head + FileMarker + "xyz" + "";
    BareMarkerHead(u, head);
    RewriteAfterHead(u, head, FileMarker, "xyz", "");
  }

  /** In that link no match starts inside `?id=&`: the marker at 1 has an empty run. */
  lemma BareMarkerHead(u: string, head: string)
    requires u == "?id=&file/d/xyz" && head == "?id=&"
    ensures forall j :: 0 <= j < |head| ==> !MatchesAt(u, j)
  {
    assert !MatchesAt(u, 1) by {
      assert u[1..4] == IdMarker;
      assert RunEnd(u, 4) == 4;
    }
    forall j | 0 <= j < |head| && j != 1 ensures !MatchesAt(u, j) {
      NoMatchWhereFree(u, j);
    }
  }

  /** A link without either marker is passed through unchanged. */
  lemma PlainLinkUnchanged(u: string)
    requires u == "https://example.org/photo.png"
    ensures ToDriveView(Some(u)) == u
  {
    assert MarkerFree(u);
    MarkerFreeHead(u, u);
  }
}

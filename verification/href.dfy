/** The video id the link handler reads out of a link address with the
    pattern `/\/video\/(BV[a-zA-Z0-9]+)/`: the leftmost occurrence of
    "/video/BV" followed by at least one letter or digit, and from its "BV"
    the longest run of letters and digits.
 */
module Href {
  import opened Dom

  predicate IsAlnum(c: char) {
    ('a' <= c <= 'z') || ('A' <= c <= 'Z') || ('0' <= c <= '9')
  }

  const Marker: string := "/video/BV"

  /** Where the "BV" of the marker starts, relative to the marker. */
  const IdOffset: nat := 7

  /** An id the pattern can capture: "BV" and at least one letter or digit,
      all of it letters and digits. */
  predicate IsBvid(id: string) {
    && |id| >= 3 && id[0] == 'B' && id[1] == 'V'
    && forall k :: 0 <= k < |id| ==> IsAlnum(id[k])
  }

  /** The pattern matches at `i`. */
  predicate MatchAt(s: string, i: nat) {
    OccursAt(s, Marker, i) && i + |Marker| < |s| && IsAlnum(s[i + |Marker|])
  }

  /** Length of the run of letters and digits starting at `i`. */
  function AlnumRun(s: string, i: nat): (n: nat)
    requires i <= |s|
    ensures i + n <= |s|
    ensures forall j :: i <= j < i + n ==> IsAlnum(s[j])
    ensures i + n == |s| || !IsAlnum(s[i + n])
    decreases |s| - i
  {
    if i == |s| || !IsAlnum(s[i]) then 0 else 1 + AlnumRun(s, i + 1)
  }

  /** The leftmost match at or after `from`. */
  function FirstMatch(s: string, from: nat): (r: Option<nat>)
    requires from <= |s|
    ensures r.Some? ==> from <= r.value && MatchAt(s, r.value)
    ensures r.Some? ==> forall j :: from <= j < r.value ==> !MatchAt(s, j)
    ensures r.None? <==> forall j :: from <= j ==> !MatchAt(s, j)
    decreases |s| - from
  {
    if from + |Marker| >= |s| then None
    else if MatchAt(s, from) then Some(from)
    else FirstMatch(s, from + 1)
  }

  /** The group the pattern captures when it matches at `i`: it starts at
      the marker's "BV" and runs as far as letters and digits go. */
  function Capture(s: string, i: nat): (id: string)
    requires MatchAt(s, i)
    ensures IsBvid(id)
    ensures i + IdOffset + |id| <= |s| && s[i + IdOffset .. i + IdOffset + |id|] == id
    ensures i + IdOffset + |id| == |s| || !IsAlnum(s[i + IdOffset + |id|])
  {
    var id := s[i + IdOffset .. i + |Marker| + AlnumRun(s, i + |Marker|)];
    CaptureIsBvid(s, i);
    id
  }

  lemma CaptureIsBvid(s: string, i: nat)
    requires MatchAt(s, i)
    ensures IsBvid(s[i + IdOffset .. i + |Marker| + AlnumRun(s, i + |Marker|)])
  {
    var end := i + |Marker| + AlnumRun(s, i + |Marker|);
    var id := s[i + IdOffset .. end];
    var m := s[i .. i + |Marker|];
    assert m == Marker;
    assert id[0] == m[7] == 'B';
    assert id[1] == m[8] == 'V';
    forall k | 0 <= k < |id| ensures IsAlnum(id[k]) {
      assert id[k] == s[i + IdOffset + k];
    }
  }

  /** The captured group of the leftmost match, or None when there is none. */
  function ExtractBvid(href: string): (r: Option<string>)
    ensures r.None? <==> forall i :: !MatchAt(href, i)
    ensures r.Some? ==> IsBvid(r.value)
    ensures r.Some? ==> exists i: nat ::
      && MatchAt(href, i)
      && (forall j :: 0 <= j < i ==> !MatchAt(href, j))
      && r.value == Capture(href, i)
  {
    match FirstMatch(href, 0)
    case None => None
    case Some(i) => Some(Capture(href, i))
  }

  /** A match needs a '/' followed by a 'v'. */
  lemma MatchNeedsSlashV(s: string, i: nat)
    requires MatchAt(s, i)
    ensures s[i] == '/' && s[i + 1] == 'v'
  {
    var m := s[i .. i + |Marker|];
    assert m == Marker;
    assert s[i] == m[0];
    assert s[i + 1] == m[1];
  }

  const Host: string := "https://www.bilibili.com/"

  /** The site's host part holds no 'v', so no match starts inside it. */
  lemma NoMatchInHost(s: string)
    requires |s| >= |Host| && s[..|Host|] == Host
    ensures forall j :: 0 <= j < |Host| - 1 ==> !MatchAt(s, j)
  {
    assert 'v' !in Host;
    forall j | 0 <= j < |Host| - 1 ensures !MatchAt(s, j) {
      if MatchAt(s, j) {
        MatchNeedsSlashV(s, j);
        assert false;
      }
    }
  }

  lemma VideoUrlShape(id: string)
    requires IsBvid(id)
    ensures var s := VideoUrl(id);
      && s[..|Host|] == Host
      && MatchAt(s, |Host| - 1)
      && s[|Host| - 1 + IdOffset..] == id
  {
    var s := VideoUrl(id);
    assert VideoUrlPrefix == Host + "video/";
    assert s == Host + "video/" + id;
    assert s[24 .. 33] == "/video/" + id[..2];
    assert id[..2] == "BV";
    assert s[33] == id[2];
  }

  /** A match at `start`, none before it, and letters and digits up to the
      end: the capture is everything from the "BV" on. */
  lemma ExtractFirstMatch(s: string, start: nat)
    requires MatchAt(s, start)
    requires forall j :: 0 <= j < start ==> !MatchAt(s, j)
    requires forall j :: start + |Marker| <= j < |s| ==> IsAlnum(s[j])
    ensures ExtractBvid(s) == Some(s[start + IdOffset..])
  {
    var f := FirstMatch(s, 0);
    assert f == Some(start);
    var n := AlnumRun(s, start + |Marker|);
    assert start + |Marker| + n == |s|;
    assert Capture(s, start) == s[start + IdOffset..];
  }

  /** The site address the scripts build from an id gives that id back:
      `ExtractBvid` undoes `VideoUrl`. */
  lemma ExtractVideoUrl(id: string)
    requires IsBvid(id)
    ensures ExtractBvid(VideoUrl(id)) == Some(id)
  {
    var s := VideoUrl(id);
    VideoUrlShape(id);
    NoMatchInHost(s);
    var start := |Host| - 1;
    forall j | start + |Marker| <= j < |s| ensures IsAlnum(s[j]) {
      assert s[j] == s[start + IdOffset..][j - start - IdOffset];
    }
    ExtractFirstMatch(s, start);
  }
}

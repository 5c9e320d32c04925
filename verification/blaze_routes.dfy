/** Route matching of the web framework (`match_route` in `blaze.rs`): paths are split
    on '/', empty pieces are dropped, and the remaining segments are compared
    pairwise, a segment `:name` capturing the request's segment under `name`. */
module BlazeRoutes {
  import opened Base
  import opened Text

  /** `.filter(|s| !s.is_empty())`. */
  function NonEmpty(parts: seq<string>): (r: seq<string>)
    ensures |r| <= |parts|
    ensures forall i :: 0 <= i < |r| ==> r[i] != ""
    ensures forall x :: x != "" ==> multiset(r)[x] == multiset(parts)[x]
    ensures |parts| == 1 ==> r == if parts[0] == "" then [] else parts
  {
    if |parts| == 0 then []
    else
      var rest := NonEmpty(parts[1..]);
      assert parts == [parts[0]] + parts[1..];
      if parts[0] == "" then rest
      else
        [parts[0]] + rest
  }

  /** The segments kept are exactly the non-empty ones among the parts. */
  lemma NonEmptyMembers(parts: seq<string>, x: string)
    ensures x in NonEmpty(parts) <==> x != "" && x in parts
  {
    var r := NonEmpty(parts);
    if x in r {
      var i :| 0 <= i < |r| && r[i] == x;
      assert multiset(r)[x] > 0;
    }
    if x != "" && x in parts {
      assert multiset(parts)[x] > 0;
    }
  }

  lemma {:induction false} NonEmptyConcat(a: seq<string>, b: seq<string>)
    ensures NonEmpty(a + b) == NonEmpty(a) + NonEmpty(b)
    decreases |a|
  {
    if |a| > 0 {
      assert (a + b)[0] == a[0] && (a + b)[1..] == a[1..] + b;
      NonEmptyConcat(a[1..], b);
    } else {
      assert a + b == b;
    }
  }

  lemma {:induction false} NonEmptyKeeps(parts: seq<string>)
    requires forall i :: 0 <= i < |parts| ==> parts[i] != ""
    ensures NonEmpty(parts) == parts
    decreases |parts|
  {
    if |parts| > 0 {
      NonEmptyKeeps(parts[1..]);
      assert [parts[0]] + parts[1..] == parts;
    }
  }

  /** The non-empty '/'-separated segments of a path. */
  function Segments(path: string): seq<string>
  {
    NonEmpty(Split(path, '/'))
  }

  /** Leading, trailing and doubled slashes do not change the segments. */
  lemma SegmentsIgnoreExtraSlashes(a: string, b: string)
    ensures Segments("/" + a) == Segments(a)
    ensures Segments(a + "/") == Segments(a)
    ensures Segments(a + "//" + b) == Segments(a + "/" + b)
  {
    assert "/" + a == [] + ['/'] + a;
    SplitConcat([], a, '/');
    NonEmptyConcat([""], Split(a, '/'));
    assert a + "/" == a + ['/'] + [];
    SplitConcat(a, [], '/');
    NonEmptyConcat(Split(a, '/'), [""]);
    assert a + "//" + b == a + ['/'] + ("/" + b);
    assert "/" + b == [] + ['/'] + b;
    assert a + "/" + b == a + ['/'] + b;
    SplitConcat(a, "/" + b, '/');
    SplitConcat([], b, '/');
    SplitConcat(a, b, '/');
    NonEmptyConcat(Split(a, '/'), [""] + Split(b, '/'));
    NonEmptyConcat([""], Split(b, '/'));
    NonEmptyConcat(Split(a, '/'), Split(b, '/'));
  }

  /** A path written from slash-free, non-empty segments has exactly those segments. */
  lemma SegmentsOfJoin(segs: seq<string>)
    requires |segs| >= 1
    requires forall i :: 0 <= i < |segs| ==> segs[i] != "" && '/' !in segs[i]
    ensures Segments(Join(segs, "/")) == segs
    ensures Segments("/" + Join(segs, "/")) == segs
  {
    SplitJoin(segs, '/');
    NonEmptyKeeps(segs);
    SegmentsIgnoreExtraSlashes(Join(segs, "/"), "");
  }

  /** `strip_prefix(':')` succeeds. */
  predicate IsParam(seg: string)
  {
    |seg| > 0 && seg[0] == ':'
  }

  /** The pairwise comparison, captures accumulated into acc (a later capture of the
      same name replaces an earlier one). */
  function MatchSegments(rp: seq<string>, qp: seq<string>, acc: map<string, string>): Option<map<string, string>>
    requires |rp| == |qp|
  {
    if |rp| == 0 then Some(acc)
    else if IsParam(rp[0]) then MatchSegments(rp[1..], qp[1..], acc[rp[0][1..] := qp[0]])
    else if rp[0] != qp[0] then None
    else MatchSegments(rp[1..], qp[1..], acc)
  }

  /** `match_route`. */
  function MatchRoute(route: string, url: string): Option<map<string, string>>
  {
    var rp := Segments(route);
    var qp := Segments(url);
    if |rp| != |qp| then None else MatchSegments(rp, qp, map[])
  }

  /** Segments agree where the route has a literal segment. */
  predicate LiteralsAgree(rp: seq<string>, qp: seq<string>)
    requires |rp| == |qp|
  {
    forall i :: 0 <= i < |rp| && !IsParam(rp[i]) ==> rp[i] == qp[i]
  }

  /** i is the last position binding the parameter written rp[i]. */
  predicate LastCapture(rp: seq<string>, i: nat)
    requires i < |rp|
  {
    IsParam(rp[i]) && forall j :: i < j < |rp| && IsParam(rp[j]) ==> rp[j][1..] != rp[i][1..]
  }

  lemma {:induction false} MatchSegmentsSpec(rp: seq<string>, qp: seq<string>, acc: map<string, string>)
    requires |rp| == |qp|
    ensures MatchSegments(rp, qp, acc).Some? <==> LiteralsAgree(rp, qp)
    ensures MatchSegments(rp, qp, acc).Some? ==>
      var m := MatchSegments(rp, qp, acc).value;
      && (forall i :: 0 <= i < |rp| && LastCapture(rp, i) ==> rp[i][1..] in m && m[rp[i][1..]] == qp[i])
      && (forall k :: k in m ==> k in acc || exists i :: 0 <= i < |rp| && IsParam(rp[i]) && rp[i][1..] == k)
      && (forall k :: k in acc && (forall i :: 0 <= i < |rp| && IsParam(rp[i]) ==> rp[i][1..] != k) ==> k in m && m[k] == acc[k])
  {
    MatchSegmentsAgree(rp, qp, acc);
    MatchSegmentsCaptures(rp, qp, acc);
  }

  lemma {:induction false} MatchSegmentsAgree(rp: seq<string>, qp: seq<string>, acc: map<string, string>)
    requires |rp| == |qp|
    ensures MatchSegments(rp, qp, acc).Some? <==> LiteralsAgree(rp, qp)
    decreases |rp|
  {
    if |rp| > 0 {
      var acc' := if IsParam(rp[0]) then acc[rp[0][1..] := qp[0]] else acc;
      MatchSegmentsAgree(rp[1..], qp[1..], acc');
      assert LiteralsAgree(rp, qp) <==> (IsParam(rp[0]) || rp[0] == qp[0]) && LiteralsAgree(rp[1..], qp[1..]) by {
        if LiteralsAgree(rp, qp) {
          forall i | 0 <= i < |rp[1..]| && !IsParam(rp[1..][i]) ensures rp[1..][i] == qp[1..][i] {
            assert rp[1..][i] == rp[i + 1];
          }
        }
        if (IsParam(rp[0]) || rp[0] == qp[0]) && LiteralsAgree(rp[1..], qp[1..]) {
          forall i | 0 <= i < |rp| && !IsParam(rp[i]) ensures rp[i] == qp[i] {
            if i > 0 { assert rp[i] == rp[1..][i - 1]; }
          }
        }
      }
    }
  }

  lemma {:induction false} MatchSegmentsCaptures(rp: seq<string>, qp: seq<string>, acc: map<string, string>)
    requires |rp| == |qp|
    ensures MatchSegments(rp, qp, acc).Some? ==>
      var m := MatchSegments(rp, qp, acc).value;
      && (forall i :: 0 <= i < |rp| && LastCapture(rp, i) ==> rp[i][1..] in m && m[rp[i][1..]] == qp[i])
      && (forall k :: k in m ==> k in acc || exists i :: 0 <= i < |rp| && IsParam(rp[i]) && rp[i][1..] == k)
      && (forall k :: k in acc && (forall i :: 0 <= i < |rp| && IsParam(rp[i]) ==> rp[i][1..] != k) ==> k in m && m[k] == acc[k])
    decreases |rp|
  {
    if |rp| > 0 {
      var acc' := if IsParam(rp[0]) then acc[rp[0][1..] := qp[0]] else acc;
      MatchSegmentsCaptures(rp[1..], qp[1..], acc');
      var r := MatchSegments(rp, qp, acc);
      if r.Some? {
        assert r == MatchSegments(rp[1..], qp[1..], acc');
        var m := r.value;
        forall i | 0 <= i < |rp| && LastCapture(rp, i) ensures rp[i][1..] in m && m[rp[i][1..]] == qp[i] {
          if i > 0 {
            assert LastCapture(rp[1..], i - 1) by {
              forall j | i - 1 < j < |rp[1..]| && IsParam(rp[1..][j]) ensures rp[1..][j][1..] != rp[1..][i - 1][1..] {
                assert rp[1..][j] == rp[j + 1];
              }
            }
          } else {
            forall j | 0 <= j < |rp[1..]| && IsParam(rp[1..][j]) ensures rp[1..][j][1..] != rp[0][1..] {
              assert rp[1..][j] == rp[j + 1];
            }
          }
        }
        forall k | k in m ensures k in acc || exists i :: 0 <= i < |rp| && IsParam(rp[i]) && rp[i][1..] == k {
          if k !in acc' {
            var i :| 0 <= i < |rp[1..]| && IsParam(rp[1..][i]) && rp[1..][i][1..] == k;
            assert rp[i + 1] == rp[1..][i];
          } else if k !in acc {
            assert IsParam(rp[0]) && rp[0][1..] == k;
          }
        }
        forall k | k in acc && (forall i :: 0 <= i < |rp| && IsParam(rp[i]) ==> rp[i][1..] != k) ensures k in m && m[k] == acc[k] {
          assert forall i :: 0 <= i < |rp[1..]| && IsParam(rp[1..][i]) ==> rp[1..][i][1..] != k by {
            forall i | 0 <= i < |rp[1..]| && IsParam(rp[1..][i]) ensures rp[1..][i][1..] != k {
              assert rp[1..][i] == rp[i + 1];
            }
          }
        }
      }
    }
  }

  /** A route matches exactly when the segment counts agree and every literal segment
      equals the request's; each parameter then holds the request segment at its
      last position, and nothing else is captured. */
  lemma MatchRouteSpec(route: string, url: string)
    ensures var rp := Segments(route); var qp := Segments(url);
      MatchRoute(route, url).Some? <==> |rp| == |qp| && LiteralsAgree(rp, qp)
    ensures var rp := Segments(route); var qp := Segments(url);
      MatchRoute(route, url).Some? ==>
        var m := MatchRoute(route, url).value;
        && (forall i :: 0 <= i < |rp| && LastCapture(rp, i) ==> rp[i][1..] in m && m[rp[i][1..]] == qp[i])
        && (forall k :: k in m ==> exists i :: 0 <= i < |rp| && IsParam(rp[i]) && rp[i][1..] == k)
  {
    var rp := Segments(route);
    var qp := Segments(url);
    if |rp| == |qp| {
      MatchSegmentsSpec(rp, qp, map[]);
    }
  }

  /** A route without parameters yields the empty capture exactly when its segments
      are the request's. */
  lemma {:induction false} StaticRouteMatch(route: string, url: string)
    requires forall i :: 0 <= i < |Segments(route)| ==> !IsParam(Segments(route)[i])
    ensures MatchRoute(route, url) == if Segments(route) == Segments(url) then Some(map[]) else None
  {
    var rp := Segments(route);
    var qp := Segments(url);
    if |rp| == |qp| {
      MatchSegmentsSpec(rp, qp, map[]);
      StaticSegments(rp, qp);
      if MatchSegments(rp, qp, map[]).Some? {
        assert rp == qp;
      }
    }
  }

  lemma {:induction false} StaticSegments(rp: seq<string>, qp: seq<string>)
    requires |rp| == |qp|
    requires forall i :: 0 <= i < |rp| ==> !IsParam(rp[i])
    ensures MatchSegments(rp, qp, map[]) == if rp == qp then Some(map[]) else None
    decreases |rp|
  {
    if |rp| > 0 {
      StaticSegments(rp[1..], qp[1..]);
      if rp[0] == qp[0] && rp[1..] == qp[1..] {
        assert rp == [rp[0]] + rp[1..] == [qp[0]] + qp[1..] == qp;
      }
    }
  }

  /** Slashes are irrelevant to matching: a leading or trailing slash on either side
      changes nothing. */
  lemma MatchIgnoresSlashes(route: string, url: string)
    ensures MatchRoute("/" + route, url) == MatchRoute(route, url)
    ensures MatchRoute(route + "/", url) == MatchRoute(route, url)
    ensures MatchRoute(route, "/" + url) == MatchRoute(route, url)
    ensures MatchRoute(route, url + "/") == MatchRoute(route, url)
  {
    SegmentsIgnoreExtraSlashes(route, "");
    SegmentsIgnoreExtraSlashes(url, "");
  }
}

/** `ProcessHref` in main.go: resolving the href a worker was handed, and the admission
    loop over the anchors of the fetched page that decides which hrefs become new work.

    The visited map `urls` and the counter `uniqueUrls` are package-level variables in
    the source; here they are passed in and handed back, and admission is sequential. */
module Scrape {
  import opened Wrappers
  import opened GoStrings
  import opened Seqs

  /** What `http.Get` and the HTML parser made of a request: a transport error, or a
      reply with its status code and, when the body parsed, the page's anchors in
      document order (each the value of its `href` attribute, `None` when it has none). */
  datatype Response =
    | TransportError
    | Reply(status: int, document: Option<seq<Option<string>>>)

  /** The only status code for which the page is read; any other abandons it. */
  const StatusOK := 200

  /** The URL actually requested for `href`: none for an empty href, the domain root with
      the secure scheme put in front of a root-relative href, any other href as it is. */
  function Resolve(parent: string, href: string): (r: Option<string>)
    ensures r.None? <==> href == []
    ensures r.Some? ==> HasSuffix(r.value, href)
    ensures r.Some? && !HasPrefix(href, "/") ==> r.value == href
    ensures r.Some? && HasPrefix(href, "/") ==>
              HasPrefix(r.value, "https://" + parent) && |r.value| == |"https://" + parent| + |href|
              && Contains(r.value, parent)
  {
    if |href| == 0 then None
    else if HasPrefix(href, "/") then
      ContainsEmbedded("https://", parent, href);
      var url := "https://" + parent + href;
      assert url[..|"https://" + parent|] == "https://" + parent;
      assert url[|url| - |href|..] == href;
      Some(url)
    else Some(href)
  }

  /** A resolved URL resolves to itself: it never starts with "/". */
  lemma ResolveIdempotent(parent: string, href: string)
    requires href != []
    ensures Resolve(parent, Resolve(parent, href).value) == Resolve(parent, href)
  {
    var url := Resolve(parent, href).value;
    if HasPrefix(href, "/") {
      assert url[0] == 'h';
    }
  }

  /** The shape of an href the admission loop keeps: no query, inside the configured
      domain by substring, and root-relative or with a scheme starting with "http". */
  predicate InScope(parent: string, href: string) {
    '?' !in href && Contains(href, parent) && (HasPrefix(href, "/") || HasPrefix(href, "http"))
  }

  /** The tests the admission loop applies to one anchor, short of the visited check:
      the href with its query stripped, if the anchor has an href attribute, contains the
      domain and starts with "/" or "http". */
  function Candidate(parent: string, anchor: Option<string>): (r: Option<string>)
  {
    var href := BeforeQuery(anchor.GetOr(""));
    if anchor.None? || !Contains(href, parent) then None
    else if HasPrefix(href, "/") || HasPrefix(href, "http") then Some(href)
    else None
  }

  /** An anchor yields a candidate exactly when it has an href whose stripped form is in
      scope, and the candidate is that stripped form. */
  lemma CandidateIff(parent: string, anchor: Option<string>)
    ensures Candidate(parent, anchor).Some? <==>
              anchor.Some? && InScope(parent, BeforeQuery(anchor.value))
    ensures Candidate(parent, anchor).Some? ==>
              Candidate(parent, anchor).value == BeforeQuery(anchor.value)
  {
  }

  /** The candidates of a page, in document order (duplicates kept). */
  function Candidates(parent: string, anchors: seq<Option<string>>): seq<string>
  {
    if anchors == [] then []
    else
      match Candidate(parent, anchors[0])
      case Some(href) => [href] + Candidates(parent, anchors[1..])
      case None => Candidates(parent, anchors[1..])
  }

  /** The candidates are exactly the hrefs that some anchor yields, all of them in scope. */
  lemma {:induction false} CandidatesSpec(parent: string, anchors: seq<Option<string>>)
    ensures forall x :: x in Candidates(parent, anchors) <==>
              exists j :: 0 <= j < |anchors| && Candidate(parent, anchors[j]) == Some(x)
    ensures forall i :: 0 <= i < |Candidates(parent, anchors)| ==>
              InScope(parent, Candidates(parent, anchors)[i])
  {
    if anchors != [] {
      CandidatesSpec(parent, anchors[1..]);
      CandidateIff(parent, anchors[0]);
      assert forall j :: 1 <= j < |anchors| ==> anchors[1..][j - 1] == anchors[j];
      forall x | exists j :: 0 <= j < |anchors| && Candidate(parent, anchors[j]) == Some(x)
        ensures x in Candidates(parent, anchors)
      {
        var j :| 0 <= j < |anchors| && Candidate(parent, anchors[j]) == Some(x);
        if j > 0 {
          assert anchors[1..][j - 1] == anchors[j];
        }
      }
    }
  }

  /** The admission step on a sequence of candidates: each one not yet visited is admitted
      and recorded as visited before the next one is examined. */
  function Admit(candidates: seq<string>, visited: set<string>): seq<string>
  {
    if candidates == [] then []
    else if candidates[0] in visited then Admit(candidates[1..], visited)
    else [candidates[0]] + Admit(candidates[1..], visited + {candidates[0]})
  }

  /** What admission promises: no duplicates, nothing already visited, every unvisited
      candidate admitted, and the candidates' order kept. */
  lemma {:induction false} AdmitSpec(candidates: seq<string>, visited: set<string>)
    ensures NoDup(Admit(candidates, visited))
    ensures forall x :: x in Admit(candidates, visited) <==> x in candidates && x !in visited
    ensures Subseq(Admit(candidates, visited), candidates)
  {
    if candidates != [] {
      var c := candidates[0];
      if c in visited {
        AdmitSpec(candidates[1..], visited);
      } else {
        AdmitSpec(candidates[1..], visited + {c});
        var r := Admit(candidates, visited);
        assert r[1..] == Admit(candidates[1..], visited + {c});
      }
    }
  }

  /** Admitting the candidates of two pages one after the other, the second against the
      visited set the first left behind, is admitting all of them at once. So a URL found
      on several pages, or several times on one, is admitted once. */
  lemma {:induction false} AdmitConcat(first: seq<string>, second: seq<string>, visited: set<string>)
    ensures Admit(first + second, visited) ==
              Admit(first, visited) + Admit(second, visited + set x | x in Admit(first, visited))
    decreases |first|
  {
    if first == [] {
      assert first + second == second;
      assert (set x | x in Admit(first, visited)) == {};
      assert visited + {} == visited;
    } else {
      var c := first[0];
      assert (first + second)[0] == c && (first + second)[1..] == first[1..] + second;
      if c in visited {
        AdmitConcat(first[1..], second, visited);
      } else {
        AdmitConcat(first[1..], second, visited + {c});
        var rest := Admit(first[1..], visited + {c});
        assert (visited + {c}) + (set x | x in rest) == visited + (set x | x in [c] + rest);
        AppendAssoc([c], rest, Admit(second, visited + set x | x in [c] + rest));
      }
    }
  }

  /** Anchors whose hrefs differ only in their query strings add at most one URL to the
      visited set: the stripped href, and only when it was not visited before. */
  lemma QueryVariantsAdmittedOnce(parent: string, anchors: seq<Option<string>>, visited: set<string>, path: string)
    requires anchors != [] && InScope(parent, path)
    requires forall j :: 0 <= j < |anchors| ==> anchors[j].Some? && BeforeQuery(anchors[j].value) == path
    ensures Admit(Candidates(parent, anchors), visited) == if path in visited then [] else [path]
  {
    CandidatesSpec(parent, anchors);
    AdmitSpec(Candidates(parent, anchors), visited);
    forall j | 0 <= j < |anchors| ensures Candidate(parent, anchors[j]) == Some(path) {
      CandidateIff(parent, anchors[j]);
    }
    var r := Admit(Candidates(parent, anchors), visited);
    assert forall x :: x in r <==> x == path && path !in visited;
    if path !in visited {
      assert path in r;
    }
  }

  /** The domain test comes before the prefix test: a root-relative path is admitted only
      when the path itself contains the domain. */
  lemma RootRelativeNeedsDomainInPath(parent: string, path: string)
    requires HasPrefix(path, "/") && '?' !in path
    ensures Candidate(parent, Some(path)).Some? <==> Contains(path, parent)
  {
    BeforeQueryNoQuery(path);
  }

  /** The admission loop of main.go over one page's anchors. The result is the batch of
      newly admitted hrefs, the visited set afterwards and the counter afterwards. */
  method AdmitAnchors(parent: string, anchors: seq<Option<string>>, urls: set<string>, uniqueUrls: int)
    returns (hrefs: seq<string>, urls': set<string>, uniqueUrls': int)
    ensures hrefs == Admit(Candidates(parent, anchors), urls)
    ensures forall i :: 0 <= i < |hrefs| ==> InScope(parent, hrefs[i])
    ensures NoDup(hrefs)
    ensures forall x :: x in hrefs <==>
              x !in urls && exists j :: 0 <= j < |anchors| && Candidate(parent, anchors[j]) == Some(x)
    ensures Subseq(hrefs, Candidates(parent, anchors))
    ensures urls' == urls + set x | x in hrefs
    ensures uniqueUrls' == uniqueUrls + |hrefs|
  {
    hrefs, urls', uniqueUrls' := [], urls, uniqueUrls;
    for i := 0 to |anchors|
      invariant hrefs + Admit(Candidates(parent, anchors[i..]), urls') == Admit(Candidates(parent, anchors), urls)
      invariant urls' == urls + set x | x in hrefs
      invariant uniqueUrls' == uniqueUrls + |hrefs|
    {
      assert anchors[i..][1..] == anchors[i + 1..];
      var hasHref := anchors[i].Some?;
      var href := BeforeQuery(anchors[i].GetOr(""));
      if href in urls' || !hasHref || !Contains(href, parent) {
        // rejected: already visited, no href attribute, or outside the domain
      } else if HasPrefix(href, "/") || HasPrefix(href, "http") {
        urls' := urls' + {href};
        uniqueUrls' := uniqueUrls' + 1;
        hrefs := hrefs + [href];
      }
    }
    assert anchors[|anchors|..] == [];
    CandidatesSpec(parent, anchors);
    AdmitSpec(Candidates(parent, anchors), urls);
    forall i | 0 <= i < |hrefs| ensures InScope(parent, hrefs[i]) {
      var cs := Candidates(parent, anchors);
      assert hrefs[i] in hrefs;
      assert hrefs[i] in cs;
      var k :| 0 <= k < |cs| && cs[k] == hrefs[i];
    }
  }

  /** `ProcessHref` as one worker runs it on the href it was handed. `request` is the URL
      fetched (none for an empty href), `response` what the fetch returned, `report` the
      batch sent back to the dispatcher (only when non-empty). */
  method ProcessHref(parent: string, href: string, response: Response, urls: set<string>, uniqueUrls: int)
    returns (request: Option<string>, report: Option<seq<string>>, urls': set<string>, uniqueUrls': int)
    ensures request == Resolve(parent, href)
    ensures href == [] ==> report == None
    ensures report.Some? <==>
              && href != []
              && response.Reply? && response.status == StatusOK && response.document.Some?
              && Admit(Candidates(parent, response.document.value), urls) != []
    ensures report.Some? ==> report.value == Admit(Candidates(parent, response.document.value), urls)
    ensures report.Some? ==> NoDup(report.value) && forall i :: 0 <= i < |report.value| ==>
              InScope(parent, report.value[i]) && report.value[i] !in urls
    ensures urls' == urls + set x | x in report.GetOr([])
    ensures uniqueUrls' == uniqueUrls + |report.GetOr([])|
  {
    request, report := None, None;
    urls', uniqueUrls' := urls, uniqueUrls;
    if |href| == 0 {
      return;
    }
    request := Resolve(parent, href);
    match response
    case TransportError =>
    case Reply(status, document) =>
      if status != StatusOK {
        return;
      }
      if document.None? {
        return;
      }
      var hrefs;
      hrefs, urls', uniqueUrls' := AdmitAnchors(parent, document.value, urls, uniqueUrls);
      if |hrefs| > 0 {
        report := Some(hrefs);
      }
  }
}

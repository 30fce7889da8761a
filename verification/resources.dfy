/** The resources screen: a fixed list of study resources and a search box
    that keeps the resources whose title or description contains the query,
    ignoring the case of ASCII letters. */
module Resources {
  import opened Text
  import opened Sequences

  datatype Resource = Resource(id: string, title: string, description: string, kind: string, link: string)

  /** The three sample resources the screen lists. */
  const SampleResources: seq<Resource> := [
    Resource("1", "Study Techniques",
             "Effective study methods and time management strategies",
             "guide", "https://example.com/study-techniques"),
    Resource("2", "Math Formulas",
             "Common mathematical formulas and their applications",
             "notes", "https://example.com/math-formulas"),
    Resource("3", "Programming Basics",
             "Introduction to programming concepts and syntax",
             "tutorial", "https://example.com/programming-basics")
  ]

  /** The search test: the lower-cased query occurs in the lower-cased title
      or the lower-cased description. */
  predicate Matches(r: Resource, query: string) {
    Contains(Lower(r.title), Lower(query)) || Contains(Lower(r.description), Lower(query))
  }

  /** `filteredResources`: the resources that match, in list order. */
  function Search(rs: seq<Resource>, query: string): (found: seq<Resource>)
    ensures IsSubsequence(found, rs)
    ensures forall r :: r in found <==> r in rs && Matches(r, query)
  {
    if rs == [] then []
    else
      var init, last := rs[..|rs| - 1], rs[|rs| - 1];
      var found := Search(init, query);
      assert rs == init + [last];
      if Matches(last, query) then
        assert (found + [last])[..|found|] == found;
        found + [last]
      else found
  }

  /** A matching resource is kept as often as it is listed; any other is
      dropped. */
  lemma {:induction false} SearchMultiplicity(rs: seq<Resource>, query: string, r: Resource)
    ensures multiset(Search(rs, query))[r] == if Matches(r, query) then multiset(rs)[r] else 0
  {
    if rs != [] {
      var init, last := rs[..|rs| - 1], rs[|rs| - 1];
      SearchMultiplicity(init, query, r);
      assert rs == init + [last];
    }
  }

  /** An empty search box lists every resource. */
  lemma {:induction false} SearchEmpty(rs: seq<Resource>)
    ensures Search(rs, []) == rs
  {
    if rs != [] {
      SearchEmpty(rs[..|rs| - 1]);
      ContainsEmpty(Lower(rs[|rs| - 1].title));
      assert rs == rs[..|rs| - 1] + [rs[|rs| - 1]];
    }
  }

  /** Queries that differ only in the case of ASCII letters find the same
      resources. */
  lemma {:induction false} SearchIgnoresCase(rs: seq<Resource>, q1: string, q2: string)
    requires Lower(q1) == Lower(q2)
    ensures Search(rs, q1) == Search(rs, q2)
  {
    if rs != [] {
      SearchIgnoresCase(rs[..|rs| - 1], q1, q2);
    }
  }

  /** A resource matching a query matches every part of it. */
  lemma MatchesPart(r: Resource, part: string, query: string)
    requires Contains(query, part) && Matches(r, query)
    ensures Matches(r, part)
  {
    LowerKeepsOccurrence(query, part);
    if Contains(Lower(r.title), Lower(query)) {
      ContainsTransitive(Lower(part), Lower(query), Lower(r.title));
    } else {
      ContainsTransitive(Lower(part), Lower(query), Lower(r.description));
    }
  }

  /** Typing more narrows the result: what a longer query finds, a query
      contained in it finds too, in the same order. */
  lemma {:induction false} SearchNarrows(rs: seq<Resource>, part: string, query: string)
    requires Contains(query, part)
    ensures IsSubsequence(Search(rs, query), Search(rs, part))
  {
    if rs != [] {
      var init, last := rs[..|rs| - 1], rs[|rs| - 1];
      SearchNarrows(init, part, query);
      var a, b := Search(init, query), Search(init, part);
      if Matches(last, query) {
        MatchesPart(last, part, query);
        assert (a + [last])[..|a|] == a && (b + [last])[..|b|] == b;
      } else if Matches(last, part) {
        SubsequenceExtend(a, b, last);
      }
    }
  }

  /** Searching for "FORMULAS" finds the math notes: case does not matter. */
  lemma SearchExample()
    ensures SampleResources[1] in Search(SampleResources, "FORMULAS")
  {
    var r := SampleResources[1];
    assert r.title[5..] == "Formulas";
    LowerSlice(r.title, 5, |r.title|);
    assert Lower("Formulas") == Lower("FORMULAS");
    assert OccursAt(Lower(r.title), Lower("FORMULAS"), 5);
  }
}

/**
 A worked example of the suggestion filter on the real catalog: the query
 "jo" offers "John Doe" and "Bob Johnson" (matched case-insensitively), and
 neither "Jane Smith" nor "Nick Giannopoulos".

 The catalog and the query are passed in as parameters equal to the
 constants, so that the verifier reasons about them through the lemmas
 below rather than by unfolding every string.
 */
module Examples {
  import opened Text
  import opened Seqs
  import opened ChipInput

  lemma QueryJoExample(items: seq<string>, query: string)
    requires items == Catalog && query == "jo"
    ensures Suggestions(items, query, []) == [items[0], items[2]]
    ensures items[0] == "John Doe" && items[2] == "Bob Johnson"
  {
    JohnDoeMatches(items[0], query);
    JaneSmithDoesNotMatch(items[1], query);
    BobJohnsonMatches(items[2], query);
    NickGiannopoulosDoesNotMatch(items[3], query);
    KeepFirstAndThird(items, MatchesQuery(query));
    FilterKeepsAll([items[0], items[2]], NotChosen([]));
  }

  lemma JohnDoeMatches(name: string, query: string)
    requires name == "John Doe" && query == "jo"
    ensures Matches(name, query)
  {
    assert Lower(query) == query;
    assert OccursAt(query, Lower(name), 0);
  }

  lemma BobJohnsonMatches(name: string, query: string)
    requires name == "Bob Johnson" && query == "jo"
    ensures Matches(name, query)
  {
    assert Lower(query) == query;
    assert OccursAt(query, Lower(name), 4) by {
      assert Lower(name)[4..6] == [LowerChar('J'), LowerChar('o')];
    }
  }

  /** The only 'j' of "jane smith" is followed by an 'a'. */
  lemma JaneSmithDoesNotMatch(name: string, query: string)
    requires name == "Jane Smith" && query == "jo"
    ensures !Matches(name, query)
  {
    assert Lower(query) == query;
    var low := Lower(name);
    AbsentFromLower(name[1..], 'j');
    assert low[1..] == Lower(name[1..]);
    assert low[1] == 'a';
  }

  /** "nick giannopoulos" has no 'j' at all. */
  lemma NickGiannopoulosDoesNotMatch(name: string, query: string)
    requires name == "Nick Giannopoulos" && query == "jo"
    ensures !Matches(name, query)
  {
    assert Lower(query) == query;
    AbsentFromLower(name, 'j');
    FirstCharAbsent(Lower(name), query);
  }

  lemma KeepFirstAndThird<T>(items: seq<T>, p: T -> bool)
    requires |items| == 4 && p(items[0]) && !p(items[1]) && p(items[2]) && !p(items[3])
    ensures Filter(items, p) == [items[0], items[2]]
  {
    assert items[1..][0] == items[1] && items[1..][1..] == items[2..];
    assert items[2..][0] == items[2] && items[2..][1..] == items[3..];
    assert items[3..][0] == items[3] && items[3..][1..] == [];
    assert Filter(items[3..], p) == [];
    assert Filter(items[2..], p) == [items[2]];
    assert Filter(items[1..], p) == [items[2]];
  }
}

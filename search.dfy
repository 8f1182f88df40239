/** `searchPlayers`: finding a peer to open a private chat with. */
module PeerSearch {
  import opened Text

  datatype Player = Player(name: string, code: string, position: string)

  /** What the results box shows: nothing (the query is blank), the "no results" line,
      or the matching players. */
  datatype SearchResult = Cleared | NoResults | Found(players: seq<Player>)

  /** `xs` is `ys` with some elements left out and the rest in their order. */
  predicate IsSubsequence<T(==)>(xs: seq<T>, ys: seq<T>)
    decreases |ys|
  {
    if xs == [] then true
    else if ys == [] then false
    else if xs[0] == ys[0] then IsSubsequence(xs[1..], ys[1..])
    else IsSubsequence(xs, ys[1..])
  }

  /** The search term: the query trimmed and lower-cased. */
  function SearchTerm(query: string): (r: string)
    ensures r == [] <==> AllSpace(query)
  {
    Lower(Trim(query))
  }

  /** A player the search keeps: the lower-cased name contains the term and it is not the
      current user. */
  predicate Matches(p: Player, term: string, selfCode: string) {
    Contains(Lower(p.name), term) && p.code != selfCode
  }

  /** `players.filter(...)`: the matching players, in roster order, each as often as in the roster. */
  function FilterPlayers(players: seq<Player>, term: string, selfCode: string): (r: seq<Player>)
    ensures forall i :: 0 <= i < |r| ==> Matches(r[i], term, selfCode)
    ensures forall p :: multiset(r)[p] == if Matches(p, term, selfCode) then multiset(players)[p] else 0
    ensures IsSubsequence(r, players)
  {
    if players == [] then []
    else
      var rest := FilterPlayers(players[1..], term, selfCode);
      assert players == [players[0]] + players[1..];
      if Matches(players[0], term, selfCode) then [players[0]] + rest else rest
  }

  /** `searchPlayers` over the roster, for the current user's code `selfCode`. */
  function SearchPlayers(players: seq<Player>, query: string, selfCode: string): (r: SearchResult)
    ensures r.Cleared? <==> AllSpace(query)
    ensures r.NoResults? <==>
      !AllSpace(query) && forall p :: p in players ==> !Matches(p, SearchTerm(query), selfCode)
    ensures r.Found? ==> r.players != [] && r.players == FilterPlayers(players, SearchTerm(query), selfCode)
  {
    var term := SearchTerm(query);
    if term == [] then Cleared
    else
      var found := FilterPlayers(players, term, selfCode);
      if found == [] then
        assert forall p :: p in players ==> !Matches(p, term, selfCode) by {
          forall p | p in players ensures !Matches(p, term, selfCode) {
            assert multiset(found)[p] == 0;
          }
        }
        NoResults
      else
        assert found[0] in multiset(found);
        Found(found)
  }

  /** A found player is exactly a roster entry other than the current user whose lower-cased
      name has the search term as a substring. */
  lemma SearchFoundIff(players: seq<Player>, query: string, selfCode: string, p: Player)
    requires SearchPlayers(players, query, selfCode).Found?
    ensures var term := SearchTerm(query);
      p in SearchPlayers(players, query, selfCode).players <==>
        p in players && p.code != selfCode && exists i :: OccursAt(Lower(p.name), term, i)
  {
    var found := SearchPlayers(players, query, selfCode).players;
    ContainsIff(Lower(p.name), SearchTerm(query));
    assert p in found <==> multiset(found)[p] > 0;
    assert p in players <==> multiset(players)[p] > 0;
  }
}

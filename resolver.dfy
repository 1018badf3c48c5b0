/**
  The resolver of bot.py: choosing one catalog record for a free-text title
  (`pick_main_game`) and turning the catalog's HTTP outcome into a record or
  nothing (`search_game`).
 */
module Resolver {

  import opened Wrappers

  /** One record of the catalog's answer: its display name and, when the record
      carries artwork, the cover's image id. */
  datatype Candidate = Candidate(name: string, cover: Option<string>)

  /** The catalog's HTTP outcome, reduced to its status and its decoded list. */
  datatype Response = Response(status: int, results: seq<Candidate>)

  /** The only status `search_game` accepts. */
  const StatusOk: int := 200

  // ---------------------------------------------------------------------------
  // Lower-casing (ASCII letters only)
  // ---------------------------------------------------------------------------

  /** One character of `Lower`; the contract spells out the ASCII case map
      (upper-case letters move 32 code points down to lower case, all else stays). */
  function LowerChar(c: char): (d: char)
    ensures 'A' <= c <= 'Z' ==> 'a' <= d <= 'z' && d as int - c as int == 32
    ensures !('A' <= c <= 'Z') ==> d == c
  {
    if 'A' <= c <= 'Z' then (c as int + 32) as char else c
  }

  /** `str.lower()`, restricted to ASCII: every character is lower-cased on its
      own. The first two clauses describe the map; the third is the property
      that matters: no upper-case letter survives. */
  function Lower(s: string): (r: string)
    ensures |r| == |s|
    ensures forall i :: 0 <= i < |s| ==> r[i] == LowerChar(s[i])
    ensures forall i :: 0 <= i < |r| ==> !('A' <= r[i] <= 'Z')
  {
    seq(|s|, i requires 0 <= i < |s| => LowerChar(s[i]))
  }

  // ---------------------------------------------------------------------------
  // What the choice of `pick_main_game` is
  // ---------------------------------------------------------------------------

  /** The test of the loop in `pick_main_game`: the record's lower-cased name
      equals the already lower-cased query `lq`. */
  predicate Matches(c: Candidate, lq: string)
  {
    Lower(c.name) == lq
  }

  predicate HasMatch(rs: seq<Candidate>, lq: string)
  {
    exists j :: 0 <= j < |rs| && Matches(rs[j], lq)
  }

  /** `k` is the first position whose record matches. */
  predicate IsFirstMatch(rs: seq<Candidate>, lq: string, k: int)
  {
    0 <= k < |rs| && Matches(rs[k], lq) &&
    forall j :: 0 <= j < k ==> !Matches(rs[j], lq)
  }

  /** `k` holds a shortest name, and every record before it is strictly longer:
      the position `min(..., key=len)` keeps. */
  predicate IsFirstShortest(rs: seq<Candidate>, k: int)
  {
    0 <= k < |rs| &&
    (forall j :: 0 <= j < |rs| ==> |rs[k].name| <= |rs[j].name|) &&
    (forall j :: 0 <= j < k ==> |rs[j].name| > |rs[k].name|)
  }

  /** The position `pick_main_game` chooses for the lower-cased query `lq`. */
  predicate IsPick(rs: seq<Candidate>, lq: string, k: int)
  {
    if HasMatch(rs, lq) then IsFirstMatch(rs, lq, k) else IsFirstShortest(rs, k)
  }

  // ---------------------------------------------------------------------------
  // The computation of `pick_main_game`
  // ---------------------------------------------------------------------------

  /** The `for g in results` loop from position `i` on: the first matching
      position, or `None` when the loop runs to its end. */
  function ScanFrom(rs: seq<Candidate>, lq: string, i: nat): (r: Option<nat>)
    requires i <= |rs|
    ensures r.Some? ==> i <= r.value < |rs| && Matches(rs[r.value], lq)
    ensures r.Some? ==> forall j :: i <= j < r.value ==> !Matches(rs[j], lq)
    ensures r.None? ==> forall j :: i <= j < |rs| ==> !Matches(rs[j], lq)
    decreases |rs| - i
  {
    if i == |rs| then None
    else if Matches(rs[i], lq) then Some(i)
    else ScanFrom(rs, lq, i + 1)
  }

  /** `min(results, key=len(name))` as CPython evaluates it: the running
      minimum `best` is replaced only by a strictly shorter name, so the first
      of equally short names stays. `best` is the minimum of `rs[..i]`. */
  function ShortestFrom(rs: seq<Candidate>, best: nat, i: nat): (k: nat)
    requires best < i <= |rs|
    requires forall j :: 0 <= j < i ==> |rs[best].name| <= |rs[j].name|
    requires forall j :: 0 <= j < best ==> |rs[j].name| > |rs[best].name|
    ensures IsFirstShortest(rs, k)
    decreases |rs| - i
  {
    if i == |rs| then best
    else if |rs[i].name| < |rs[best].name| then ShortestFrom(rs, i, i + 1)
    else ShortestFrom(rs, best, i + 1)
  }

  /** The position of the record `pick_main_game` returns. A non-empty list is
      required: on an empty one the loop falls through and `min` raises. */
  function PickIndex(rs: seq<Candidate>, query: string): (k: nat)
    requires |rs| > 0
    ensures k < |rs| && IsPick(rs, Lower(query), k)
  {
    match ScanFrom(rs, Lower(query), 0)
    case Some(k) => k
    case None => ShortestFrom(rs, 0, 1)
  }

  /** `pick_main_game(results, query)`: the first record whose lower-cased name
      equals the lower-cased query; failing that, the first record of shortest name. */
  function PickMainGame(rs: seq<Candidate>, query: string): (r: Candidate)
    requires |rs| > 0
    ensures r in rs
    ensures exists k :: IsPick(rs, Lower(query), k) && 0 <= k < |rs| && rs[k] == r
  {
    rs[PickIndex(rs, query)]
  }

  /** The properties stated about a position by `IsPick` single it out. */
  lemma PickIsUnique(rs: seq<Candidate>, lq: string, k1: int, k2: int)
    requires IsPick(rs, lq, k1) && IsPick(rs, lq, k2)
    ensures k1 == k2
  {
    if HasMatch(rs, lq) {
      // each is a matching position, so neither lies before the other
      assert Matches(rs[k1], lq) && Matches(rs[k2], lq);
    } else {
      // both names are shortest, so neither lies after a strictly longer one
      assert |rs[k1].name| == |rs[k2].name|;
    }
  }

  /** When some record matches, the record returned matches and no earlier one does. */
  lemma PickPrefersExactMatch(rs: seq<Candidate>, query: string, j: nat)
    requires j < |rs| && Matches(rs[j], Lower(query))
    ensures Matches(PickMainGame(rs, query), Lower(query))
    ensures IsFirstMatch(rs, Lower(query), PickIndex(rs, query))
    ensures PickIndex(rs, query) <= j
  {
  }

  /** When nothing matches, the record returned has a shortest name and every
      earlier record has a strictly longer one. */
  lemma PickFallsBackToShortest(rs: seq<Candidate>, query: string)
    requires |rs| > 0 && !HasMatch(rs, Lower(query))
    ensures forall j :: 0 <= j < |rs| ==> |PickMainGame(rs, query).name| <= |rs[j].name|
    ensures IsFirstShortest(rs, PickIndex(rs, query))
  {
  }

  // ---------------------------------------------------------------------------
  // `search_game`, without the HTTP request
  // ---------------------------------------------------------------------------

  /** `search_game` after the request: nothing on a non-200 status or an empty
      list, otherwise `pick_main_game` of the list. */
  function SearchGame(resp: Response, gameName: string): (r: Option<Candidate>)
    ensures r.None? <==> resp.status != StatusOk || |resp.results| == 0
    ensures r.Some? ==> |resp.results| > 0 && r.value == PickMainGame(resp.results, gameName)
    ensures r.Some? ==> r.value in resp.results
  {
    if resp.status != StatusOk then None
    else if |resp.results| == 0 then None
    else Some(PickMainGame(resp.results, gameName))
  }

  // ---------------------------------------------------------------------------
  // Worked examples
  // ---------------------------------------------------------------------------

  /** An exact match, up to case, beats a longer name that merely contains it. */
  lemma ExampleExactMatch()
    ensures PickMainGame([Candidate("Doom", None), Candidate("DOOM Eternal", None)], "doom").name == "Doom"
  {
    var rs := [Candidate("Doom", None), Candidate("DOOM Eternal", None)];
    assert Matches(rs[0], Lower("doom"));
  }

  /** Without an exact match the shortest name wins. */
  lemma ExampleShortestName()
    ensures PickMainGame([Candidate("Grand Theft Auto V", None), Candidate("GTA V", None)], "gta 5").name == "GTA V"
  {
    var rs := [Candidate("Grand Theft Auto V", None), Candidate("GTA V", None)];
    var lq := Lower("gta 5");
    assert Lower(rs[0].name)[1] != lq[1];
    assert Lower(rs[1].name)[4] != lq[4];
    assert !HasMatch(rs, lq);
    assert |rs[0].name| > |rs[1].name|;
    assert IsFirstShortest(rs, 1);
    PickIsUnique(rs, lq, 1, PickIndex(rs, "gta 5"));
  }

  /** Of two equally short names the first listed wins. */
  lemma ExampleTieKeepsFirst()
    ensures PickMainGame([Candidate("Abc", None), Candidate("Xyz", None)], "q").name == "Abc"
  {
    var rs := [Candidate("Abc", None), Candidate("Xyz", None)];
    var lq := Lower("q");
    assert |Lower(rs[0].name)| != |lq|;
    assert |Lower(rs[1].name)| != |lq|;
    assert !HasMatch(rs, lq);
    assert IsFirstShortest(rs, 0);
    PickIsUnique(rs, lq, 0, PickIndex(rs, "q"));
  }

  /** An empty catalog answer yields nothing rather than an error. */
  lemma ExampleEmptyAnswer(gameName: string)
    ensures SearchGame(Response(StatusOk, []), gameName) == None
  {
  }
}

/** assignments/p2-1-wordnet/src/WordNet.java: the index built from the
    synset and hypernym lines (already read from their files), and the noun
    lookups that hand sets of synset ids to the shortest ancestral path. */
module WordNets {
  import opened Wrappers
  import JavaText
  import opened BreadthFirst
  import opened Sap

  /** One synset line, parsed: its id, its synset field and that field's
      space-separated words. */
  datatype Synset = Synset(id: int, synset: string, words: seq<string>)

  /** A synset line `id,synset,gloss`: None when it has fewer than two
      comma-separated fields (the line is skipped); an id that is not an int
      is a NumberFormatException. */
  function SynsetEntry(line: string): (r: Result<Option<Synset>>)
    ensures r.Err? ==> r.error == NumberFormat
    ensures r.Ok? && r.value.Some? ==> r.value.value.words == JavaText.Split(r.value.value.synset, ' ')
  {
    var fields := JavaText.Split(line, ',');
    if |fields| < 2 then Ok(None)
    else match JavaText.ParseInt(fields[0])
      case Err(e) => Err(e)
      case Ok(id) => Ok(Some(Synset(id, fields[1], JavaText.Split(fields[1], ' '))))
  }

  /** Every synset line, parsed. */
  function SynsetEntries(lines: seq<string>): (es: seq<Result<Option<Synset>>>)
    ensures |es| == |lines|
  {
    seq(|lines|, j requires 0 <= j < |lines| => SynsetEntry(lines[j]))
  }

  /** The entry is a synset with this id. */
  predicate HasId(e: Result<Option<Synset>>, id: int)
  {
    e.Ok? && e.value.Some? && e.value.value.id == id
  }

  /** The entry is a synset with this id whose synset field lists word w. */
  predicate Lists(e: Result<Option<Synset>>, w: string, id: int)
  {
    HasId(e, id) && w in e.value.value.words
  }

  /** The `nouns` table after adding id to the bag of w; a `Bag` yields the
      latest addition first. */
  function AddWord(nouns: map<string, seq<int>>, w: string, id: int): map<string, seq<int>>
  {
    nouns[w := [id] + (if w in nouns then nouns[w] else [])]
  }

  /** The table after the words loop of one synset line. */
  function AddWords(nouns: map<string, seq<int>>, words: seq<string>, id: int): map<string, seq<int>>
  {
    if words == [] then nouns
    else AddWord(AddWords(nouns, words[..|words| - 1], id), words[|words| - 1], id)
  }

  /** What the words loop does to the table: the keys gain the words, and
      the bag of each word gains id and nothing else. */
  lemma {:induction false} AddWordsIndexes(nouns: map<string, seq<int>>, words: seq<string>, id: int)
    ensures var r := AddWords(nouns, words, id);
      && (forall w :: w in r <==> w in nouns || w in words)
      && (forall w, x :: w in r ==> (x in r[w] <==> (w in nouns && x in nouns[w]) || (w in words && x == id)))
    decreases |words|
  {
    if words != [] {
      var init := words[..|words| - 1];
      AddWordsIndexes(nouns, init, id);
      assert words == init + [words[|words| - 1]];
    }
  }

  /** The synsets array and the nouns table. */
  datatype Index = Index(synsets: seq<Option<string>>, nouns: map<string, seq<int>>)

  /** One pass of the synsets loop: a skipped line changes nothing; an id
      outside the array is an ArrayIndexOutOfBoundsException; otherwise the
      array entry is set and the words are indexed. */
  function SynsetStep(ix: Index, e: Result<Option<Synset>>): Result<Index>
  {
    match e
      case Err(err) => Err(err)
      case Ok(None) => Ok(ix)
      case Ok(Some(s)) =>
        if 0 <= s.id < |ix.synsets| then Ok(Index(ix.synsets[s.id := Some(s.synset)], AddWords(ix.nouns, s.words, s.id)))
        else Err(IndexOutOfBounds)
  }

  /** The first loop of the constructor over the first k parsed synset
      lines, with an array of n entries. */
  function ReadSynsets(es: seq<Result<Option<Synset>>>, k: int, n: nat): (r: Result<Index>)
    requires 0 <= k <= |es|
    ensures r.Ok? ==> |r.value.synsets| == n
  {
    if k == 0 then Ok(Index(seq(n, _ => None), map[]))
    else match ReadSynsets(es, k - 1, n)
      case Err(e) => Err(e)
      case Ok(ix) => SynsetStep(ix, es[k - 1])
  }

  /** The first failure is the result of the whole loop. */
  lemma {:induction false} ReadSynsetsFails(es: seq<Result<Option<Synset>>>, k: int, k': int, n: nat)
    requires 0 <= k <= k' <= |es| && ReadSynsets(es, k, n).Err?
    ensures ReadSynsets(es, k', n) == ReadSynsets(es, k, n)
    decreases k'
  {
    if k' > k {
      ReadSynsetsFails(es, k, k' - 1, n);
    }
  }

  /** `nouns` and `isNoun`: a word is a noun exactly when some synset line
      lists it, its bag holds exactly the ids of those lines, and every id
      is an index of the synsets array. */
  lemma {:induction false} NounsIndexed(es: seq<Result<Option<Synset>>>, k: int, n: nat)
    requires 0 <= k <= |es| && ReadSynsets(es, k, n).Ok?
    ensures var nouns := ReadSynsets(es, k, n).value.nouns;
      && (forall w :: w in nouns <==> exists j, id :: 0 <= j < k && Lists(es[j], w, id))
      && (forall w, id :: w in nouns ==> (id in nouns[w] <==> exists j :: 0 <= j < k && Lists(es[j], w, id)))
      && (forall w, id :: w in nouns && id in nouns[w] ==> 0 <= id < n)
    decreases k
  {
    if k > 0 {
      NounsIndexed(es, k - 1, n);
      var ix := ReadSynsets(es, k - 1, n).value;
      var nouns := ReadSynsets(es, k, n).value.nouns;
      if es[k - 1].value.Some? {
        var s := es[k - 1].value.value;
        AddWordsIndexes(ix.nouns, s.words, s.id);
        assert nouns == AddWords(ix.nouns, s.words, s.id);
        forall w
          ensures w in nouns <==> exists j, id :: 0 <= j < k && Lists(es[j], w, id)
        {
          if w in s.words {
            assert Lists(es[k - 1], w, s.id);
          }
          if exists j, id :: 0 <= j < k && Lists(es[j], w, id) {
            var j, id :| 0 <= j < k && Lists(es[j], w, id);
            assert j < k - 1 ==> w in ix.nouns;
          }
        }
        forall w, id | w in nouns
          ensures id in nouns[w] <==> exists j :: 0 <= j < k && Lists(es[j], w, id)
        {
          if w in s.words && id == s.id {
            assert Lists(es[k - 1], w, id);
          }
          if exists j :: 0 <= j < k && Lists(es[j], w, id) {
            var j :| 0 <= j < k && Lists(es[j], w, id);
            assert j < k - 1 ==> w in ix.nouns && id in ix.nouns[w];
          }
        }
      } else {
        assert nouns == ix.nouns;
      }
    }
  }

  /** `synsets[id]`: set exactly for the ids some line carries, to the
      synset field of the last such line. */
  lemma {:induction false} SynsetsRecorded(es: seq<Result<Option<Synset>>>, k: int, n: nat)
    requires 0 <= k <= |es| && ReadSynsets(es, k, n).Ok?
    ensures var synsets := ReadSynsets(es, k, n).value.synsets;
      && (forall id :: 0 <= id < n ==> (synsets[id].Some? <==> exists j :: 0 <= j < k && HasId(es[j], id)))
      && (forall id :: 0 <= id < n && synsets[id].Some? ==>
            exists j :: 0 <= j < k && HasId(es[j], id) && es[j].value.value.synset == synsets[id].value
              && forall j' :: j < j' < k ==> !HasId(es[j'], id))
    decreases k
  {
    if k > 0 {
      SynsetsRecorded(es, k - 1, n);
      var prev := ReadSynsets(es, k - 1, n).value.synsets;
      var cur := ReadSynsets(es, k, n).value.synsets;
      forall id | 0 <= id < n
        ensures cur[id].Some? <==> exists j :: 0 <= j < k && HasId(es[j], id)
        ensures cur[id].Some? ==>
          exists j :: 0 <= j < k && HasId(es[j], id) && es[j].value.value.synset == cur[id].value
            && forall j' :: j < j' < k ==> !HasId(es[j'], id)
      {
        if HasId(es[k - 1], id) {
          assert cur[id] == Some(es[k - 1].value.value.synset);
        } else {
          assert cur[id] == prev[id];
          if exists j :: 0 <= j < k && HasId(es[j], id) {
            var j :| 0 <= j < k && HasId(es[j], id);
            assert j < k - 1;
          }
          if cur[id].Some? {
            var j :| 0 <= j < k - 1 && HasId(es[j], id) && es[j].value.value.synset == prev[id].value
              && forall j' :: j < j' < k - 1 ==> !HasId(es[j'], id);
            assert forall j' :: j < j' < k ==> !HasId(es[j'], id);
          }
        }
      }
    }
  }

  /** One hypernym line, parsed: its id and each later field as
      `Integer.parseInt` reads it. */
  datatype Hypernyms = Hypernyms(id: int, targets: seq<Result<int>>)

  /** A hypernym line `id,h1,h2,...`: a line of commas only has no field 0
      (ArrayIndexOutOfBoundsException); an id that is not an int is a
      NumberFormatException. */
  function HypernymEntry(line: string): (r: Result<Hypernyms>)
    ensures r.Err? ==> r.error == NumberFormat || r.error == IndexOutOfBounds
  {
    var fields := JavaText.Split(line, ',');
    if |fields| == 0 then Err(IndexOutOfBounds)
    else match JavaText.ParseInt(fields[0])
      case Err(e) => Err(e)
      case Ok(id) => Ok(Hypernyms(id, seq(|fields| - 1, i requires 0 <= i < |fields| - 1 => JavaText.ParseInt(fields[i + 1]))))
  }

  /** Every hypernym line, parsed. */
  function HypernymEntries(lines: seq<string>): (es: seq<Result<Hypernyms>>)
    ensures |es| == |lines|
  {
    seq(|lines|, j requires 0 <= j < |lines| => HypernymEntry(lines[j]))
  }

  /** The graph with the edge v -> w added; `adj(v)` yields the latest edge
      first. */
  function AddEdge(G: seq<seq<int>>, v: int, w: int): seq<seq<int>>
    requires 0 <= v < |G|
  {
    G[v := [w] + G[v]]
  }

  /** The inner loop of one hypernym line over its first k targets: each is
      parsed and, through `Digraph.addEdge`, both ends are validated before
      the edge from the line's id is added. */
  function AddHypernyms(G: seq<seq<int>>, id: int, hs: seq<Result<int>>, k: int): (r: Result<seq<seq<int>>>)
    requires 0 <= k <= |hs|
    ensures r.Ok? ==> |r.value| == |G|
  {
    if k == 0 then Ok(G)
    else match AddHypernyms(G, id, hs, k - 1)
      case Err(e) => Err(e)
      case Ok(G') =>
        match hs[k - 1]
          case Err(e) => Err(e)
          case Ok(h) => if 0 <= id < |G'| && 0 <= h < |G'| then Ok(AddEdge(G', id, h)) else Err(IllegalArgument)
  }

  lemma {:induction false} AddHypernymsFails(G: seq<seq<int>>, id: int, hs: seq<Result<int>>, k: int, k': int)
    requires 0 <= k <= k' <= |hs| && AddHypernyms(G, id, hs, k).Err?
    ensures AddHypernyms(G, id, hs, k') == AddHypernyms(G, id, hs, k)
    decreases k'
  {
    if k' > k {
      AddHypernymsFails(G, id, hs, k, k' - 1);
    }
  }

  /** The hypernym loop over the first k parsed lines, on a digraph of n
      vertices. */
  function ReadHypernyms(es: seq<Result<Hypernyms>>, k: int, n: nat): (r: Result<seq<seq<int>>>)
    requires 0 <= k <= |es|
    ensures r.Ok? ==> |r.value| == n
  {
    if k == 0 then Ok(seq(n, _ => []))
    else match ReadHypernyms(es, k - 1, n)
      case Err(e) => Err(e)
      case Ok(G) =>
        match es[k - 1]
          case Err(e) => Err(e)
          case Ok(h) => AddHypernyms(G, h.id, h.targets, |h.targets|)
  }

  lemma {:induction false} ReadHypernymsFails(es: seq<Result<Hypernyms>>, k: int, k': int, n: nat)
    requires 0 <= k <= k' <= |es| && ReadHypernyms(es, k, n).Err?
    ensures ReadHypernyms(es, k', n) == ReadHypernyms(es, k, n)
    decreases k'
  {
    if k' > k {
      ReadHypernymsFails(es, k, k' - 1, n);
    }
  }

  /** One of the first k targets is w. */
  predicate Names(hs: seq<Result<int>>, k: int, w: int)
    requires 0 <= k <= |hs|
  {
    exists i :: 0 <= i < k && hs[i] == Ok(w)
  }

  /** The hypernym line is `v,...` and one of its later fields is w. */
  predicate Edge(e: Result<Hypernyms>, v: int, w: int)
  {
    e.Ok? && e.value.id == v && Names(e.value.targets, |e.value.targets|, w)
  }

  /** The edges one hypernym line adds go from its id to each target, all of
      them vertices. */
  lemma {:induction false} HypernymsAdded(G: seq<seq<int>>, id: int, hs: seq<Result<int>>, k: int)
    requires 0 <= k <= |hs| && AddHypernyms(G, id, hs, k).Ok?
    requires forall v, w :: 0 <= v < |G| && w in G[v] ==> 0 <= w < |G|
    ensures var G' := AddHypernyms(G, id, hs, k).value;
      && (forall v, w :: 0 <= v < |G| && v != id ==> (w in G'[v] <==> w in G[v]))
      && (0 <= id < |G| ==> forall w :: w in G'[id] <==> w in G[id] || Names(hs, k, w))
      && (forall v, w :: 0 <= v < |G| && w in G'[v] ==> 0 <= w < |G|)
    decreases k
  {
    if k > 0 {
      HypernymsAdded(G, id, hs, k - 1);
      var G0 := AddHypernyms(G, id, hs, k - 1).value;
      var h := hs[k - 1].value;
      var G' := AddHypernyms(G, id, hs, k).value;
      assert 0 <= id < |G| && G' == AddEdge(G0, id, h);
      forall w
        ensures w in G'[id] <==> w in G[id] || Names(hs, k, w)
      {
        if Names(hs, k, w) && w != h {
          var i :| 0 <= i < k && hs[i] == Ok(w);
          assert Names(hs, k - 1, w);
        }
        if Names(hs, k - 1, w) {
          var i :| 0 <= i < k - 1 && hs[i] == Ok(w);
          assert 0 <= i < k && hs[i] == Ok(w);
        }
        if w == h {
          assert 0 <= k - 1 < k && hs[k - 1] == Ok(w);
        }
      }
    }
  }

  /** The digraph the hypernym lines describe: w follows v exactly when some
      line is `v,...` with w among its later fields, and every edge ends at a
      vertex. */
  lemma {:induction false} HypernymsRead(es: seq<Result<Hypernyms>>, k: int, n: nat)
    requires 0 <= k <= |es| && ReadHypernyms(es, k, n).Ok?
    ensures var G := ReadHypernyms(es, k, n).value;
      && (forall v, w :: 0 <= v < n ==> (w in G[v] <==> exists j :: 0 <= j < k && Edge(es[j], v, w)))
      && (forall v, w :: 0 <= v < n && w in G[v] ==> 0 <= w < n)
    decreases k
  {
    if k > 0 {
      HypernymsRead(es, k - 1, n);
      var G := ReadHypernyms(es, k - 1, n).value;
      var h := es[k - 1].value;
      var G' := ReadHypernyms(es, k, n).value;
      HypernymsAdded(G, h.id, h.targets, |h.targets|);
      forall v, w | 0 <= v < n
        ensures w in G'[v] <==> exists j :: 0 <= j < k && Edge(es[j], v, w)
      {
        if v == h.id {
          assert w in G'[v] <==> w in G[v] || Names(h.targets, |h.targets|, w);
          if Names(h.targets, |h.targets|, w) {
            assert Edge(es[k - 1], v, w);
          }
        } else {
          assert w in G'[v] <==> w in G[v];
        }
        if exists j :: 0 <= j < k && Edge(es[j], v, w) {
          var j :| 0 <= j < k && Edge(es[j], v, w);
          assert j < k - 1 ==> w in G[v];
        }
      }
    }
  }

  /** The hypernym digraph is a `Digraph` of n vertices. */
  lemma HypernymsGraph(es: seq<Result<Hypernyms>>, n: nat)
    requires n <= INFINITY && ReadHypernyms(es, |es|, n).Ok?
    ensures Graph(ReadHypernyms(es, |es|, n).value)
  {
    var G := ReadHypernyms(es, |es|, n).value;
    HypernymsRead(es, |es|, n);
    forall u, k | 0 <= u < |G| && 0 <= k < |G[u]|
      ensures 0 <= G[u][k] < |G|
    {
      assert G[u][k] in G[u];
    }
  }

  /** A built `WordNet`: the synsets array, the nouns table and the SAP over
      the hypernym digraph. */
  class WordNet {
    const synsets: array<Option<string>>
    const nouns: map<string, seq<int>>
    const sap: Sap

    ghost predicate Valid()
    {
      Graph(sap.dg) && synsets.Length == |sap.dg|
      && forall w, id :: w in nouns && id in nouns[w] ==> 0 <= id < |sap.dg|
    }

    constructor(synsets: array<Option<string>>, nouns: map<string, seq<int>>, sap: Sap)
      ensures this.synsets == synsets && this.nouns == nouns && this.sap == sap
    {
      this.synsets, this.nouns, this.sap := synsets, nouns, sap;
    }

    /** `nouns()`: every noun. */
    method Nouns() returns (s: set<string>)
      ensures s == nouns.Keys
    {
      s := nouns.Keys;
    }

    /** `isNoun(word)`. */
    method IsNoun(word: string) returns (b: bool)
      ensures b <==> word in nouns
    {
      b := word in nouns;
    }

    /** `distance(nounA, nounB)`: unknown nouns are rejected; otherwise the
        shortest ancestral path length between their synset id sets. */
    method Distance(nounA: string, nounB: string) returns (r: Result<int>)
      requires Valid()
      ensures r.Err? <==> nounA !in nouns || nounB !in nouns
      ensures r.Err? ==> r.error == IllegalArgument
      ensures r.Ok? ==> exists anc :: IsAnswer(sap.dg, nouns[nounA], nouns[nounB], (r.value, anc))
    {
      if nounA !in nouns || nounB !in nouns {
        return Err(IllegalArgument);
      }
      r := sap.LengthOfSets(Some(nouns[nounA]), Some(nouns[nounB]));
    }

    /** `sap(nounA, nounB)`: unknown nouns are rejected; otherwise the synset
        of a common ancestor on a shortest ancestral path, null when there is
        none (or when that id never had a synset line). */
    method Sap(nounA: string, nounB: string) returns (r: Result<Option<string>>)
      requires Valid()
      ensures r.Err? <==> nounA !in nouns || nounB !in nouns
      ensures r.Err? ==> r.error == IllegalArgument
      ensures r.Ok? ==> exists len, anc ::
        IsAnswer(sap.dg, nouns[nounA], nouns[nounB], (len, anc))
        && (anc == -1 || 0 <= anc < synsets.Length)
        && r.value == (if anc == -1 then None else synsets[anc])
    {
      if nounA !in nouns || nounB !in nouns {
        return Err(IllegalArgument);
      }
      var anc := sap.AncestorOfSets(Some(nouns[nounA]), Some(nouns[nounB]));
      return Ok(if anc.value == -1 then None else synsets[anc.value]);
    }
  }

  /** The words loop of one synset line. */
  method IndexWords(nouns0: map<string, seq<int>>, words: seq<string>, id: int) returns (nouns: map<string, seq<int>>)
    ensures nouns == AddWords(nouns0, words, id)
  {
    nouns := nouns0;
    var i := 0;
    while i < |words|
      invariant 0 <= i <= |words| && nouns == AddWords(nouns0, words[..i], id)
    {
      var word := words[i];
      assert words[..i + 1][..i] == words[..i] && words[..i + 1][i] == word;
      if word in nouns {
        nouns := nouns[word := [id] + nouns[word]];
      } else {
        assert [id] + [] == [id];
        nouns := nouns[word := [id]];
      }
      i := i + 1;
    }
    assert words[..|words|] == words;
  }

  /** One pass of the synsets loop on the array and the table. */
  method IndexLine(synsets: array<Option<string>>, nouns: map<string, seq<int>>, e: Result<Option<Synset>>) returns (r: Result<map<string, seq<int>>>)
    modifies synsets
    ensures var step := SynsetStep(Index(old(synsets[..]), nouns), e);
      && (r.Err? <==> step.Err?)
      && (r.Err? ==> r.error == step.error)
      && (r.Ok? ==> step.value == Index(synsets[..], r.value))
  {
    if e.Err? {
      return Err(e.error);
    }
    if e.value.None? {
      return Ok(nouns);
    }
    var id := e.value.value.id;
    if id < 0 || id >= synsets.Length {
      return Err(IndexOutOfBounds);
    }
    synsets[id] := Some(e.value.value.synset);
    var nouns' := IndexWords(nouns, e.value.value.words, id);
    return Ok(nouns');
  }

  /** The first loop of the constructor: fill the synsets array and the
      nouns table from the parsed synset lines. */
  method IndexSynsets(es: seq<Result<Option<Synset>>>) returns (r: Result<(array<Option<string>>, map<string, seq<int>>)>)
    ensures var spec := ReadSynsets(es, |es|, |es|);
      && (r.Err? <==> spec.Err?)
      && (r.Err? ==> r.error == spec.error)
      && (r.Ok? ==> fresh(r.value.0) && Index(r.value.0[..], r.value.1) == spec.value)
  {
    var n := |es|;
    var synsets := new Option<string>[n](_ => None);
    var nouns: map<string, seq<int>> := map[];
    assert synsets[..] == seq(n, _ => None);
    var i := 0;
    while i < n
      invariant 0 <= i <= n && synsets.Length == n
      invariant ReadSynsets(es, i, n) == Ok(Index(synsets[..], nouns))
    {
      var next := IndexLine(synsets, nouns, es[i]);
      if next.Err? {
        ReadSynsetsFails(es, i + 1, n, n);
        return Err(next.error);
      }
      nouns := next.value;
      i := i + 1;
    }
    return Ok((synsets, nouns));
  }

  /** The second loop of the constructor: the edges of each hypernym line on
      a digraph of n vertices. */
  method ConnectHypernyms(es: seq<Result<Hypernyms>>, n: nat) returns (r: Result<seq<seq<int>>>)
    ensures r == ReadHypernyms(es, |es|, n)
  {
    var G: seq<seq<int>> := seq(n, _ => []);
    var i := 0;
    while i < |es|
      invariant 0 <= i <= |es| && ReadHypernyms(es, i, n) == Ok(G)
    {
      var e := es[i];
      if e.Err? {
        ReadHypernymsFails(es, i + 1, |es|, n);
        return Err(e.error);
      }
      var G' := AddLineEdges(G, e.value.id, e.value.targets);
      if G'.Err? {
        ReadHypernymsFails(es, i + 1, |es|, n);
        return G';
      }
      G := G'.value;
      i := i + 1;
    }
    return Ok(G);
  }

  /** The loop over the later fields of one hypernym line. */
  method AddLineEdges(G0: seq<seq<int>>, id: int, hs: seq<Result<int>>) returns (r: Result<seq<seq<int>>>)
    ensures r == AddHypernyms(G0, id, hs, |hs|)
  {
    var G := G0;
    var k := 0;
    while k < |hs|
      invariant 0 <= k <= |hs| && AddHypernyms(G0, id, hs, k) == Ok(G)
    {
      var parsed := hs[k];
      if parsed.Err? {
        AddHypernymsFails(G0, id, hs, k + 1, |hs|);
        return Err(parsed.error);
      }
      var hypernymId := parsed.value;
      if id < 0 || id >= |G| || hypernymId < 0 || hypernymId >= |G| {
        AddHypernymsFails(G0, id, hs, k + 1, |hs|);
        return Err(IllegalArgument);
      }
      G := AddEdge(G, id, hypernymId);
      k := k + 1;
    }
    return Ok(G);
  }

  /** `new WordNet(synsets, hypernyms)` on the lines of the two files (None
      for a null file name): the synsets are indexed first, then the
      hypernym digraph on one vertex per synset line is built. */
  method NewWordNet(synsetLines: Option<seq<string>>, hypernymLines: Option<seq<string>>) returns (r: Result<WordNet>)
    requires synsetLines.Some? ==> |synsetLines.value| <= INFINITY
    ensures synsetLines.None? || hypernymLines.None? ==> r == Err(IllegalArgument)
    ensures synsetLines.Some? && hypernymLines.Some? ==>
      var n := |synsetLines.value|;
      var index := ReadSynsets(SynsetEntries(synsetLines.value), n, n);
      var graph := ReadHypernyms(HypernymEntries(hypernymLines.value), |hypernymLines.value|, n);
      && (index.Err? ==> r == Err(index.error))
      && (index.Ok? && graph.Err? ==> r == Err(graph.error))
      && (index.Ok? && graph.Ok? ==>
            && r.Ok? && r.value.Valid()
            && Index(r.value.synsets[..], r.value.nouns) == index.value && r.value.sap.dg == graph.value)
  {
    if synsetLines.None? || hypernymLines.None? {
      return Err(IllegalArgument);
    }
    var lines := synsetLines.value;
    var synsetEntries := SynsetEntries(lines);
    var index := IndexSynsets(synsetEntries);
    if index.Err? {
      return Err(index.error);
    }
    var (synsets, nouns) := index.value;
    var hypernymEntries := HypernymEntries(hypernymLines.value);
    var graph := ConnectHypernyms(hypernymEntries, synsets.Length);
    if graph.Err? {
      return Err(graph.error);
    }
    HypernymsGraph(hypernymEntries, |lines|);
    NounsIndexed(synsetEntries, |lines|, |lines|);
    var sap := new Sap(graph.value);
    var wn := new WordNet(synsets, nouns, sap);
    return Ok(wn);
  }
}

/** Resolution of gene symbols to Entrez Gene IDs (code/gene_to_id.py).

    For each gene symbol the program asks ESearch for up to 25 candidate ids
    in relevance order, then, depending on how many came back, accepts the
    sole candidate, or fetches the candidates' records one by one with EFetch
    and picks the first exact official-symbol match, else the earliest alias
    match, else the top-ranked candidate. The HTTP and XML layers are replaced
    by a `Remote`: the outcome of every attempt at a call, and the readers
    that turn a response body into an id list or a gene record. */
module GeneToId {
  import opened Retry

  datatype Option<T> = None | Some(value: T)

  /** The fields of one EFetch gene record that the resolver looks at. */
  datatype GeneRecord = GeneRecord(
    discontinued: bool,              // a Gene-track_discontinue-date node is present
    officialSymbols: seq<string>,    // the Gene-ref_locus nodes, in document order
    aliases: set<string>)            // the Gene-ref_syn_E nodes

  /** The remote gene database, as seen by the program. `esearch(gene)(k)` and
      `efetch(id)(k)` are the outcomes of the `k`-th attempt at those calls;
      `idList` reads `["esearchresult"]["idlist"]` from a search response and
      `record` parses a fetched XML document (None when that raises). */
  datatype Remote = Remote(
    esearch: string -> nat -> Attempt<string>,
    efetch: string -> nat -> Attempt<string>,
    idList: string -> Option<seq<string>>,
    record: string -> Option<GeneRecord>)

  /** The outcome for one gene symbol. */
  datatype Resolution = Resolved(id: string) | Unresolved(reason: Reason)

  datatype Reason =
    | NoCandidates                 // ESearch returned an empty id list
    | SoleDiscontinued(id: string) // the only candidate's record is discontinued
    | Aborted(fault: Fault)        // an exception ended this gene's resolution

  // ---------------------------------------------------------------------
  // The calls, with the retry policy and the response readers
  // ---------------------------------------------------------------------

  /** The candidate ids of `gene`: the retried ESearch call, then the id list
      read from its JSON body. */
  function Search(remote: Remote, gene: string): (r: CallResult<seq<string>>)
    ensures r.Done? ==>
      exists n :: 1 <= n <= MaxAttempts && remote.esearch(gene)(n).Ok? &&
        remote.idList(remote.esearch(gene)(n).value) == Some(r.value)
    ensures r.Failed? && r.fault != Malformed ==> Retried(remote.esearch(gene)) == Failed(r.fault)
    ensures r == Failed(Malformed) ==> Retried(remote.esearch(gene)).Done?
  {
    match Retried(remote.esearch(gene))
    case Failed(f) => Failed(f)
    case Done(body) =>
      match remote.idList(body)
      case None => Failed(Malformed)
      case Some(ids) => Done(ids)
  }

  /** The record of candidate `id`: the retried EFetch call, then the parse. */
  function Fetch(remote: Remote, id: string): (r: CallResult<GeneRecord>)
    ensures r.Done? ==>
      exists n :: 1 <= n <= MaxAttempts && remote.efetch(id)(n).Ok? &&
        remote.record(remote.efetch(id)(n).value) == Some(r.value)
    ensures r.Failed? && r.fault != Malformed ==> Retried(remote.efetch(id)) == Failed(r.fault)
    ensures r == Failed(Malformed) ==> Retried(remote.efetch(id)).Done?
  {
    match Retried(remote.efetch(id))
    case Failed(f) => Failed(f)
    case Done(body) =>
      match remote.record(body)
      case None => Failed(Malformed)
      case Some(rec) => Done(rec)
  }

  /** Fetch as a record lookup. */
  function Lookup(remote: Remote): string -> CallResult<GeneRecord>
  {
    id => Fetch(remote, id)
  }

  // ---------------------------------------------------------------------
  // The decision procedure, given the candidates and a record lookup
  // ---------------------------------------------------------------------

  /** The record's first official symbol is exactly the gene symbol; a record
      with no official symbol never matches. */
  predicate ExactMatch(gene: string, rec: GeneRecord): (b: bool)
    ensures b ==> gene in rec.officialSymbols
    ensures rec.officialSymbols == [] ==> !b
  {
    |rec.officialSymbols| > 0 && rec.officialSymbols[0] == gene
  }

  /** The fetched candidate ends the scan: it is live and matches exactly. */
  predicate Selects(gene: string, o: CallResult<GeneRecord>)
  {
    o.Done? && !o.value.discontinued && ExactMatch(gene, o.value)
  }

  /** The fetched candidate lets the scan go on to the next one. */
  predicate PassesOver(gene: string, o: CallResult<GeneRecord>)
  {
    o.Done? && !Selects(gene, o)
  }

  /** The fetched candidate is live and lists the gene among its aliases. */
  predicate AliasOf(gene: string, o: CallResult<GeneRecord>)
  {
    o.Done? && !o.value.discontinued && gene in o.value.aliases
  }

  /** The candidates, in order, whose records are alias matches. */
  function AliasMatches(gene: string, ids: seq<string>, lookup: string -> CallResult<GeneRecord>): (m: seq<string>)
    ensures |m| <= |ids|
  {
    if ids == [] then []
    else (if AliasOf(gene, lookup(ids[0])) then [ids[0]] else []) + AliasMatches(gene, ids[1..], lookup)
  }

  /** How the scan over several candidates ends. */
  datatype ScanOutcome =
    | ExactAt(at: nat)                  // the `break` on an exact match, at this position
    | Exhausted(aliasHits: seq<string>) // the loop ran to the end; the alias candidates
    | AbortedAt(at: nat, fault: Fault)  // fetching the candidate at this position raised

  /** The loop over several candidates, from position `i` on, with the alias
      candidates `hits` collected so far: a discontinued record is skipped, an
      exact match stops the loop, and an alias match is appended. */
  function Scan(gene: string, ids: seq<string>, lookup: string -> CallResult<GeneRecord>, i: nat, hits: seq<string>): (r: ScanOutcome)
    requires i <= |ids|
    ensures r.ExactAt? ==> i <= r.at < |ids|
    ensures r.AbortedAt? ==> i <= r.at < |ids| && lookup(ids[r.at]) == Failed(r.fault)
    decreases |ids| - i
  {
    if i == |ids| then Exhausted(hits)
    else
      match lookup(ids[i])
      case Failed(f) => AbortedAt(i, f)
      case Done(rec) =>
        if rec.discontinued then Scan(gene, ids, lookup, i + 1, hits)
        else if ExactMatch(gene, rec) then ExactAt(i)
        else Scan(gene, ids, lookup, i + 1, if gene in rec.aliases then hits + [ids[i]] else hits)
  }

  /** The resolution of `gene` from its candidate list `ids`. */
  function Decide(gene: string, ids: seq<string>, lookup: string -> CallResult<GeneRecord>): (r: Resolution)
    ensures r == Unresolved(NoCandidates) <==> |ids| == 0
    ensures r.Resolved? ==> r.id in ids
    ensures r.Unresolved? && r.reason.SoleDiscontinued? ==> |ids| == 1 && r.reason.id == ids[0]
    ensures r.Unresolved? && r.reason.Aborted? ==> exists id :: id in ids && lookup(id) == Failed(r.reason.fault)
  {
    if |ids| == 0 then Unresolved(NoCandidates)
    else if |ids| == 1 then
      match lookup(ids[0])
      case Failed(f) => Unresolved(Aborted(f))
      case Done(rec) => if rec.discontinued then Unresolved(SoleDiscontinued(ids[0])) else Resolved(ids[0])
    else
      match Scan(gene, ids, lookup, 0, [])
      case ExactAt(k) => Resolved(ids[k])
      case AbortedAt(_, f) => Unresolved(Aborted(f))
      case Exhausted(hits) =>
        ScanExhausted(gene, ids, lookup, 0, []);
        assert ids[0..] == ids;
        AliasMatchesAreCandidates(gene, ids, lookup);
        Resolved(if |hits| > 0 then hits[0] else ids[0])
  }

  /** How many candidates' records are fetched while deciding. */
  function Consulted(gene: string, ids: seq<string>, lookup: string -> CallResult<GeneRecord>): (n: nat)
    ensures n <= |ids|
  {
    if |ids| <= 1 then |ids|
    else
      match Scan(gene, ids, lookup, 0, [])
      case ExactAt(k) => k + 1
      case AbortedAt(k, _) => k + 1
      case Exhausted(_) => |ids|
  }

  /** The resolution of one gene symbol against the remote database. */
  function Resolve(remote: Remote, gene: string): (r: Resolution)
    ensures r.Resolved? ==> Search(remote, gene).Done? && r.id in Search(remote, gene).value
    ensures r == Unresolved(NoCandidates) <==> Search(remote, gene) == Done([])
    ensures r.Unresolved? && r.reason.Aborted? && Search(remote, gene).Done? ==>
      exists id :: id in Search(remote, gene).value && Fetch(remote, id) == Failed(r.reason.fault)
  {
    match Search(remote, gene)
    case Failed(f) => Unresolved(Aborted(f))
    case Done(ids) => Decide(gene, ids, Lookup(remote))
  }

  // ---------------------------------------------------------------------
  // Properties of the scan
  // ---------------------------------------------------------------------

  /** The scan stops at position `k` on an exact match iff the record there is
      a live exact match and every record before it (from `i`) was fetched
      and let the scan go on: the first exact match wins, wherever it is. */
  lemma {:induction false} ScanExactAt(gene: string, ids: seq<string>, lookup: string -> CallResult<GeneRecord>, i: nat, hits: seq<string>, k: nat)
    requires i <= |ids|
    ensures Scan(gene, ids, lookup, i, hits) == ExactAt(k) <==>
      i <= k < |ids| && Selects(gene, lookup(ids[k])) &&
      forall j :: i <= j < k ==> PassesOver(gene, lookup(ids[j]))
    decreases |ids| - i
  {
    if i < |ids| && lookup(ids[i]).Done? && !Selects(gene, lookup(ids[i])) {
      var rec := lookup(ids[i]).value;
      ScanExactAt(gene, ids, lookup, i + 1, if !rec.discontinued && gene in rec.aliases then hits + [ids[i]] else hits, k);
    }
  }

  /** The scan is aborted by the fault of the record at position `k` iff that
      fetch failed and every record before it let the scan go on. */
  lemma {:induction false} ScanAbortedAt(gene: string, ids: seq<string>, lookup: string -> CallResult<GeneRecord>, i: nat, hits: seq<string>, k: nat, f: Fault)
    requires i <= |ids|
    ensures Scan(gene, ids, lookup, i, hits) == AbortedAt(k, f) <==>
      i <= k < |ids| && lookup(ids[k]) == Failed(f) &&
      forall j :: i <= j < k ==> PassesOver(gene, lookup(ids[j]))
    decreases |ids| - i
  {
    if i < |ids| && lookup(ids[i]).Done? && !Selects(gene, lookup(ids[i])) {
      var rec := lookup(ids[i]).value;
      ScanAbortedAt(gene, ids, lookup, i + 1, if !rec.discontinued && gene in rec.aliases then hits + [ids[i]] else hits, k, f);
    }
  }

  /** The scan runs to the end iff every record from `i` on was fetched and
      none is a live exact match; its alias candidates are then those already
      collected followed by the alias matches among the remaining ids, in
      order. Discontinued records are never among them. */
  lemma {:induction false} ScanExhausted(gene: string, ids: seq<string>, lookup: string -> CallResult<GeneRecord>, i: nat, hits: seq<string>)
    requires i <= |ids|
    ensures Scan(gene, ids, lookup, i, hits).Exhausted? <==>
      forall j :: i <= j < |ids| ==> PassesOver(gene, lookup(ids[j]))
    ensures Scan(gene, ids, lookup, i, hits).Exhausted? ==>
      Scan(gene, ids, lookup, i, hits).aliasHits == hits + AliasMatches(gene, ids[i..], lookup)
    decreases |ids| - i
  {
    if i < |ids| && lookup(ids[i]).Done? && !Selects(gene, lookup(ids[i])) {
      var rec := lookup(ids[i]).value;
      var hits' := if !rec.discontinued && gene in rec.aliases then hits + [ids[i]] else hits;
      ScanExhausted(gene, ids, lookup, i + 1, hits');
      assert Scan(gene, ids, lookup, i, hits) == Scan(gene, ids, lookup, i + 1, hits');
      assert ids[i..][1..] == ids[i + 1..];
      assert ids[i..][0] == ids[i];
      assert AliasMatches(gene, ids[i..], lookup) ==
        (if AliasOf(gene, lookup(ids[i])) then [ids[i]] else []) + AliasMatches(gene, ids[i + 1..], lookup);
    } else if i < |ids| {
      assert !PassesOver(gene, lookup(ids[i]));
    }
  }

  /** The alias matches are exactly the candidates whose records match by
      alias, and the first of them is the earliest such candidate. */
  lemma {:induction false} AliasMatchesFirst(gene: string, ids: seq<string>, lookup: string -> CallResult<GeneRecord>)
    ensures AliasMatches(gene, ids, lookup) == [] <==> forall j :: 0 <= j < |ids| ==> !AliasOf(gene, lookup(ids[j]))
    ensures AliasMatches(gene, ids, lookup) != [] ==>
      exists k :: 0 <= k < |ids| && ids[k] == AliasMatches(gene, ids, lookup)[0] &&
        AliasOf(gene, lookup(ids[k])) && forall j :: 0 <= j < k ==> !AliasOf(gene, lookup(ids[j]))
  {
    if ids != [] {
      AliasMatchesFirst(gene, ids[1..], lookup);
      if !AliasOf(gene, lookup(ids[0])) && AliasMatches(gene, ids, lookup) != [] {
        var k :| 0 <= k < |ids[1..]| && ids[1..][k] == AliasMatches(gene, ids[1..], lookup)[0] &&
          AliasOf(gene, lookup(ids[1..][k])) && forall j :: 0 <= j < k ==> !AliasOf(gene, lookup(ids[1..][j]));
        assert ids[k + 1] == ids[1..][k];
        forall j | 0 <= j < k + 1 ensures !AliasOf(gene, lookup(ids[j])) {
          if j > 0 { assert ids[j] == ids[1..][j - 1]; }
        }
      }
    }
  }

  /** Every alias match is one of the candidates. */
  lemma {:induction false} AliasMatchesAreCandidates(gene: string, ids: seq<string>, lookup: string -> CallResult<GeneRecord>)
    ensures forall x :: x in AliasMatches(gene, ids, lookup) ==> x in ids
  {
    if ids != [] {
      AliasMatchesAreCandidates(gene, ids[1..], lookup);
    }
  }

  // ---------------------------------------------------------------------
  // Properties of the decision
  // ---------------------------------------------------------------------

  /** A single candidate is accepted iff its record was fetched and is not
      discontinued; its symbols and aliases are not looked at. */
  lemma SoleCandidate(gene: string, id: string, lookup: string -> CallResult<GeneRecord>)
    ensures Decide(gene, [id], lookup) == Resolved(id) <==> lookup(id).Done? && !lookup(id).value.discontinued
    ensures Decide(gene, [id], lookup).Resolved? ==> Decide(gene, [id], lookup).id == id
    ensures lookup(id).Done? && lookup(id).value.discontinued ==> Decide(gene, [id], lookup) == Unresolved(SoleDiscontinued(id))
  {
  }

  /** An empty id list from ESearch leaves the gene without an entry and
      writes it to genes_None.txt; nothing else changes. */
  lemma EmptySearchReportsNone(l: Ledger, remote: Remote, gene: string)
    requires Search(remote, gene) == Done([])
    ensures Step(l, remote, gene) == l.(noneGenes := l.noneGenes + [gene])
  {
  }

  /** With several candidates, the first live exact match in relevance order is
      the resolution, whatever alias matches there are, before or after it. */
  lemma FirstExactMatchWins(gene: string, ids: seq<string>, lookup: string -> CallResult<GeneRecord>, k: nat)
    requires |ids| >= 2 && k < |ids|
    requires Selects(gene, lookup(ids[k]))
    requires forall j :: 0 <= j < k ==> PassesOver(gene, lookup(ids[j]))
    ensures Decide(gene, ids, lookup) == Resolved(ids[k])
    ensures Consulted(gene, ids, lookup) == k + 1
  {
    ScanExactAt(gene, ids, lookup, 0, [], k);
  }

  /** With several candidates and no live exact match, the resolution is the
      earliest candidate whose live record lists the gene as an alias. */
  lemma EarliestAliasWins(gene: string, ids: seq<string>, lookup: string -> CallResult<GeneRecord>, k: nat)
    requires |ids| >= 2 && k < |ids|
    requires forall j :: 0 <= j < |ids| ==> PassesOver(gene, lookup(ids[j]))
    requires AliasOf(gene, lookup(ids[k]))
    requires forall j :: 0 <= j < k ==> !AliasOf(gene, lookup(ids[j]))
    ensures Decide(gene, ids, lookup) == Resolved(ids[k])
    ensures Consulted(gene, ids, lookup) == |ids|
  {
    ScanExhausted(gene, ids, lookup, 0, []);
    AliasMatchesFirst(gene, ids, lookup);
    assert ids[0..] == ids;
    var m := AliasMatches(gene, ids, lookup);
    var k' :| 0 <= k' < |ids| && ids[k'] == m[0] && AliasOf(gene, lookup(ids[k'])) &&
      forall j :: 0 <= j < k' ==> !AliasOf(gene, lookup(ids[j]));
    assert k' == k by {
      assert !(k' < k) && !(k < k');
    }
  }

  /** With several candidates, no live exact match and no alias match, the
      resolution is the top-ranked candidate, discontinued or not. */
  lemma FallbackToTopCandidate(gene: string, ids: seq<string>, lookup: string -> CallResult<GeneRecord>)
    requires |ids| >= 2
    requires forall j :: 0 <= j < |ids| ==> PassesOver(gene, lookup(ids[j]))
    requires forall j :: 0 <= j < |ids| ==> !AliasOf(gene, lookup(ids[j]))
    ensures Decide(gene, ids, lookup) == Resolved(ids[0])
  {
    ScanExhausted(gene, ids, lookup, 0, []);
    AliasMatchesFirst(gene, ids, lookup);
    assert ids[0..] == ids;
  }

  /** With several candidates, resolution fails only because some fetch
      failed before any live exact match was seen. */
  lemma SeveralCandidatesAbort(gene: string, ids: seq<string>, lookup: string -> CallResult<GeneRecord>, f: Fault)
    requires |ids| >= 2
    ensures Decide(gene, ids, lookup) == Unresolved(Aborted(f)) <==>
      exists k :: 0 <= k < |ids| && lookup(ids[k]) == Failed(f) &&
        forall j :: 0 <= j < k ==> PassesOver(gene, lookup(ids[j]))
  {
    var s := Scan(gene, ids, lookup, 0, []);
    if s.AbortedAt? {
      ScanAbortedAt(gene, ids, lookup, 0, [], s.at, s.fault);
    }
    if k :| 0 <= k < |ids| && lookup(ids[k]) == Failed(f) && forall j :: 0 <= j < k ==> PassesOver(gene, lookup(ids[j])) {
      ScanAbortedAt(gene, ids, lookup, 0, [], k, f);
    }
  }

  /** Whatever is resolved is one of the candidates; a record that is not the
      top-ranked candidate is chosen only if it was fetched and is live. */
  lemma {:induction false} ResolvedIsCandidate(gene: string, ids: seq<string>, lookup: string -> CallResult<GeneRecord>)
    ensures Decide(gene, ids, lookup).Resolved? ==> Decide(gene, ids, lookup).id in ids
    ensures Decide(gene, ids, lookup).Resolved? ==>
      var id := Decide(gene, ids, lookup).id;
      (lookup(id).Done? && !lookup(id).value.discontinued) || (|ids| >= 2 && id == ids[0])
  {
    if |ids| >= 2 {
      var s := Scan(gene, ids, lookup, 0, []);
      match s
      case ExactAt(k) =>
        ScanExactAt(gene, ids, lookup, 0, [], k);
      case AbortedAt(_, _) =>
      case Exhausted(hits) =>
        ScanExhausted(gene, ids, lookup, 0, []);
        assert ids[0..] == ids;
        AliasMatchesAreCandidates(gene, ids, lookup);
        if hits != [] {
          AliasMatchesFirst(gene, ids, lookup);
        }
    }
  }

  /** The top-ranked fallback is taken even when that candidate's record was
      found discontinued: here "1" is discontinued and "2" matches neither by
      symbol nor by alias, and "1" is the resolution. */
  lemma DiscontinuedFallbackIsKept()
    ensures var lookup := (id: string) =>
      if id == "1" then Done(GeneRecord(true, ["A"], {"A"})) else Done(GeneRecord(false, ["B"], {}));
      lookup("1").value.discontinued && Decide("A", ["1", "2"], lookup) == Resolved("1")
  {
    var lookup := (id: string) =>
      if id == "1" then Done(GeneRecord(true, ["A"], {"A"})) else Done(GeneRecord(false, ["B"], {}));
    FallbackToTopCandidate("A", ["1", "2"], lookup);
  }

  // ---------------------------------------------------------------------
  // The program's per-gene procedure
  // ---------------------------------------------------------------------

  /** call_efetch followed by the XML parse. */
  method FetchRecord(remote: Remote, id: string) returns (r: CallResult<GeneRecord>)
    ensures r == Fetch(remote, id)
  {
    var response, _ := CallWithRetry(remote.efetch(id));
    if response.Failed? {
      return Failed(response.fault);
    }
    var parsed := remote.record(response.value);
    if parsed.None? {
      return Failed(Malformed);
    }
    r := Done(parsed.value);
  }

  /** The `for check_gene_id in ids_list` loop over several candidates: a
      discontinued record is skipped, an exact match sets `gene_id` and
      breaks, an alias match is appended to `candidate_gene_id`, and a failed
      fetch leaves the loop with its fault. Also returns the candidates whose
      records were fetched, in order. */
  method ScanCandidates(remote: Remote, gene: string, idsList: seq<string>)
    returns (candidateGeneId: seq<string>, geneId: string, fault: Option<Fault>, fetched: seq<string>)
    requires |idsList| >= 1
    ensures match Scan(gene, idsList, Lookup(remote), 0, [])
      case ExactAt(k) => fault == None && candidateGeneId == [] && geneId == idsList[k] && fetched == idsList[..k + 1]
      case Exhausted(hits) => fault == None && candidateGeneId == hits && geneId == idsList[0] && fetched == idsList
      case AbortedAt(k, f) => fault == Some(f) && fetched == idsList[..k + 1]
  {
    ghost var lookup := Lookup(remote);
    candidateGeneId, geneId, fault, fetched := [], idsList[0], None, [];
    var i := 0;
    while i < |idsList|
      invariant 0 <= i <= |idsList|
      invariant geneId == idsList[0]
      invariant fetched == idsList[..i]
      invariant Scan(gene, idsList, lookup, i, candidateGeneId) == Scan(gene, idsList, lookup, 0, [])
    {
      var checkGeneId := idsList[i];
      var response2 := FetchRecord(remote, checkGeneId);
      fetched := fetched + [checkGeneId];
      assert fetched == idsList[..i + 1];
      if response2.Failed? {
        fault := Some(response2.fault);
        return;
      }
      var rec := response2.value;
      if rec.discontinued {
        i := i + 1;
        continue;
      }
      if |rec.officialSymbols| > 0 && gene == rec.officialSymbols[0] {
        candidateGeneId := [];
        geneId := checkGeneId;
        return;
      } else if gene in rec.aliases {
        candidateGeneId := candidateGeneId + [checkGeneId];
      }
      i := i + 1;
    }
    assert fetched == idsList;
  }

  /** The body of the main loop for one gene: the search, the branch on the
      number of candidates, the scan, and the choice between an exact match,
      the first alias candidate and the top-ranked id. Also returns the
      candidates whose records were fetched, in order, and whether the scan
      loop was entered (which binds `check_gene_id`). */
  method ResolveGene(remote: Remote, gene: string) returns (res: Resolution, fetched: seq<string>, enteredLoop: bool)
    ensures res == Resolve(remote, gene)
    ensures Search(remote, gene).Failed? ==> fetched == []
    ensures Search(remote, gene).Done? ==>
      var ids := Search(remote, gene).value;
      fetched == ids[..Consulted(gene, ids, Lookup(remote))]
    ensures enteredLoop <==> Search(remote, gene).Done? && |Search(remote, gene).value| >= 2
  {
    fetched, enteredLoop := [], false;
    var response1, _ := CallWithRetry(remote.esearch(gene));
    if response1.Failed? {
      return Unresolved(Aborted(response1.fault)), fetched, enteredLoop;
    }
    var parsed := remote.idList(response1.value);
    if parsed.None? {
      return Unresolved(Aborted(Malformed)), fetched, enteredLoop;
    }
    var idsList := parsed.value;
    var candidateGeneId: seq<string> := [];
    var geneId: string;

    if |idsList| == 0 {
      return Unresolved(NoCandidates), fetched, enteredLoop;
    } else if |idsList| == 1 {
      geneId := idsList[0];
      var response2 := FetchRecord(remote, geneId);
      fetched := [geneId];
      assert fetched == idsList[..1];
      if response2.Failed? {
        return Unresolved(Aborted(response2.fault)), fetched, enteredLoop;
      }
      if response2.value.discontinued {
        return Unresolved(SoleDiscontinued(geneId)), fetched, enteredLoop;
      }
    } else {
      enteredLoop := true;
      var fault;
      candidateGeneId, geneId, fault, fetched := ScanCandidates(remote, gene, idsList);
      if fault.Some? {
        return Unresolved(Aborted(fault.value)), fetched, enteredLoop;
      }
    }
    if |candidateGeneId| > 0 {
      geneId := candidateGeneId[0];
    }
    res := Resolved(geneId);
  }

  // ---------------------------------------------------------------------
  // The main loop over all genes
  // ---------------------------------------------------------------------

  /** What the main loop accumulates: the symbol-to-id dictionary written to
      gene_to_id.json, the lines of genes_None.txt, the lines of
      genes_NCBI_Discontinued_1.txt, and whether the module-level variable
      `check_gene_id` has been bound by an earlier scan loop. */
  datatype Ledger = Ledger(
    geneIdDict: map<string, string>,
    noneGenes: seq<string>,
    soleDiscontinued: seq<(string, string)>,
    checkGeneIdBound: bool)

  const EmptyLedger := Ledger(map[], [], [], false)

  /** One iteration of the main loop. A sole discontinued candidate is logged
      through `check_gene_id`: while that name is unbound the log line raises a
      NameError, which the handler records in genes_None.txt. */
  function Step(l: Ledger, remote: Remote, gene: string): (r: Ledger)
    ensures Resolve(remote, gene).Resolved? ==>
      r.geneIdDict == l.geneIdDict[gene := Resolve(remote, gene).id] &&
      r.noneGenes == l.noneGenes && r.soleDiscontinued == l.soleDiscontinued
    ensures Resolve(remote, gene).Unresolved? ==>
      r.geneIdDict == l.geneIdDict &&
      ((r.noneGenes == l.noneGenes + [gene] && r.soleDiscontinued == l.soleDiscontinued) ||
       (Resolve(remote, gene).reason.SoleDiscontinued? && r.noneGenes == l.noneGenes &&
        r.soleDiscontinued == l.soleDiscontinued + [(gene, Resolve(remote, gene).reason.id)]))
    ensures r.checkGeneIdBound <==>
      l.checkGeneIdBound || (Search(remote, gene).Done? && |Search(remote, gene).value| >= 2)
  {
    var bound := l.checkGeneIdBound || (Search(remote, gene).Done? && |Search(remote, gene).value| >= 2);
    match Resolve(remote, gene)
    case Resolved(id) => l.(geneIdDict := l.geneIdDict[gene := id], checkGeneIdBound := bound)
    case Unresolved(SoleDiscontinued(id)) =>
      if l.checkGeneIdBound then l.(soleDiscontinued := l.soleDiscontinued + [(gene, id)])
      else l.(noneGenes := l.noneGenes + [gene])
    case Unresolved(_) => l.(noneGenes := l.noneGenes + [gene], checkGeneIdBound := bound)
  }

  /** The main loop over `genes`, in order. */
  function RunAll(l: Ledger, remote: Remote, genes: seq<string>): (r: Ledger)
    ensures forall g :: g in r.geneIdDict ==> g in l.geneIdDict || g in genes
    ensures |r.noneGenes| + |r.soleDiscontinued| <= |l.noneGenes| + |l.soleDiscontinued| + |genes|
    ensures l.checkGeneIdBound ==> r.checkGeneIdBound
    decreases |genes|
  {
    if genes == [] then l else RunAll(Step(l, remote, genes[0]), remote, genes[1..])
  }

  /** After the main loop `check_gene_id` is bound iff it was bound before or
      some processed gene's search gave two or more ids, entering the scan loop. */
  lemma {:induction false} RunAllBinds(l: Ledger, remote: Remote, genes: seq<string>)
    ensures RunAll(l, remote, genes).checkGeneIdBound <==>
      l.checkGeneIdBound || exists g :: g in genes && Search(remote, g).Done? && |Search(remote, g).value| >= 2
    decreases |genes|
  {
    if genes != [] {
      RunAllBinds(Step(l, remote, genes[0]), remote, genes[1..]);
      assert forall g :: g in genes <==> g == genes[0] || g in genes[1..];
    }
  }

  /** After the main loop a symbol has an entry iff it had one before or it
      was processed and resolved; its entry is its resolution. Nothing but
      resolution writes the dictionary, and a failure never removes an entry. */
  lemma {:induction false} RunAllDictionary(l: Ledger, remote: Remote, genes: seq<string>, g: string)
    ensures var d := RunAll(l, remote, genes).geneIdDict;
      (g in d <==> g in l.geneIdDict || (g in genes && Resolve(remote, g).Resolved?)) &&
      (g in genes && Resolve(remote, g).Resolved? ==> d[g] == Resolve(remote, g).id) &&
      (g !in genes && g in l.geneIdDict ==> d[g] == l.geneIdDict[g])
    decreases |genes|
  {
    if genes != [] {
      RunAllDictionary(Step(l, remote, genes[0]), remote, genes[1..], g);
      assert genes == [genes[0]] + genes[1..];
    }
  }

  /** Every processed symbol that is not resolved is reported in one of the
      two failure files, and only unresolved processed symbols are. */
  lemma {:induction false} RunAllReportsFailures(l: Ledger, remote: Remote, genes: seq<string>, g: string)
    ensures var r := RunAll(l, remote, genes);
      g in genes && Resolve(remote, g).Unresolved? ==>
        g in r.noneGenes || exists id :: (g, id) in r.soleDiscontinued
    ensures var r := RunAll(l, remote, genes);
      g in r.noneGenes ==> g in l.noneGenes || (g in genes && Resolve(remote, g).Unresolved?)
    decreases |genes|
  {
    if genes != [] {
      var l' := Step(l, remote, genes[0]);
      RunAllReportsFailures(l', remote, genes[1..], g);
      RunAllKeepsReports(l', remote, genes[1..]);
      assert genes == [genes[0]] + genes[1..];
      if g == genes[0] && Resolve(remote, g).Unresolved? {
        if g !in l'.noneGenes {
          var id := Resolve(remote, g).reason.id;
          assert (g, id) in l'.soleDiscontinued;
        }
      }
    }
  }

  /** The failure files only grow. */
  lemma {:induction false} RunAllKeepsReports(l: Ledger, remote: Remote, genes: seq<string>)
    ensures var r := RunAll(l, remote, genes);
      (forall x :: x in l.noneGenes ==> x in r.noneGenes) &&
      (forall p :: p in l.soleDiscontinued ==> p in r.soleDiscontinued)
    decreases |genes|
  {
    if genes != [] {
      var l' := Step(l, remote, genes[0]);
      assert forall x :: x in l.noneGenes ==> x in l'.noneGenes;
      assert forall p :: p in l.soleDiscontinued ==> p in l'.soleDiscontinued;
      RunAllKeepsReports(l', remote, genes[1..]);
    }
  }

  /** Every id stored in the dictionary by the main loop is one of the
      candidates ESearch returned for that symbol. */
  lemma StoredIdIsCandidate(remote: Remote, genes: seq<string>, g: string)
    requires g in RunAll(EmptyLedger, remote, genes).geneIdDict
    ensures Search(remote, g).Done?
    ensures RunAll(EmptyLedger, remote, genes).geneIdDict[g] in Search(remote, g).value
  {
    RunAllDictionary(EmptyLedger, remote, genes, g);
    ResolvedIsCandidate(g, Search(remote, g).value, Lookup(remote));
  }

  /** A gene whose sole candidate is discontinued never gets an entry: when no
      scan loop has run yet it ends in genes_None.txt (the NameError path),
      and otherwise in genes_NCBI_Discontinued_1.txt. */
  lemma SoleDiscontinuedRouting(l: Ledger, remote: Remote, gene: string, id: string)
    requires Resolve(remote, gene) == Unresolved(SoleDiscontinued(id))
    ensures Step(l, remote, gene).geneIdDict == l.geneIdDict
    ensures !l.checkGeneIdBound ==> Step(l, remote, gene).noneGenes == l.noneGenes + [gene]
    ensures l.checkGeneIdBound ==> Step(l, remote, gene).soleDiscontinued == l.soleDiscontinued + [(gene, id)]
  {
  }

  /** The state of the main loop of the program. */
  class Converter {
    const remote: Remote
    var geneIdDict: map<string, string>
    var noneGenes: seq<string>
    var soleDiscontinued: seq<(string, string)>
    var checkGeneIdBound: bool

    function State(): Ledger
      reads this
    {
      Ledger(geneIdDict, noneGenes, soleDiscontinued, checkGeneIdBound)
    }

    constructor (remote: Remote)
      ensures this.remote == remote && State() == EmptyLedger
    {
      this.remote := remote;
      geneIdDict, noneGenes, soleDiscontinued, checkGeneIdBound := map[], [], [], false;
    }

    /** One iteration of the main loop, with its exception handler. */
    method ProcessGene(gene: string)
      modifies this
      ensures State() == Step(old(State()), remote, gene)
    {
      var res, _, enteredLoop := ResolveGene(remote, gene);
      var wasBound := checkGeneIdBound;
      checkGeneIdBound := checkGeneIdBound || enteredLoop;
      match res
      case Resolved(id) =>
        geneIdDict := geneIdDict[gene := id];
      case Unresolved(SoleDiscontinued(id)) =>
        if wasBound {
          soleDiscontinued := soleDiscontinued + [(gene, id)];
        } else {
          // the log line reads `check_gene_id`: NameError, caught by the handler
          noneGenes := noneGenes + [gene];
        }
      case Unresolved(_) =>
        noneGenes := noneGenes + [gene];
    }

    /** The main loop over all query genes. */
    method Run(genes: seq<string>)
      modifies this
      ensures State() == RunAll(old(State()), remote, genes)
    {
      var i := 0;
      while i < |genes|
        invariant 0 <= i <= |genes|
        invariant RunAll(State(), remote, genes[i..]) == RunAll(old(State()), remote, genes)
      {
        assert genes[i..][1..] == genes[i + 1..];
        ProcessGene(genes[i]);
        i := i + 1;
      }
    }
  }
}

/** The record shaping of code/extract_data.py: the zero test on expression
    values, the selection of gene ids, the selection of TCGA samples from a
    download cart, and the filter that drops lowly expressed gene columns.
    File and table reading is replaced by given sequences; the float branch
    of the zero test by a given outcome of its tolerance comparison. */
module ExtractData {
  import opened Text

  /** One value of an expression table. */
  datatype Cell =
    | IntCell(n: int)
    | FloatCell(belowTolerance: bool)   // a float; whether abs(value) < 1e-6
    | OtherCell                         // neither int nor float

  /** The exceptions the code can raise. */
  datatype Error = ValueError | IndexError | ZeroDivisionError

  datatype Outcome<T> = Ok(value: T) | Err(error: Error)

  // ---------------------------------------------------------------------
  // is_zero
  // ---------------------------------------------------------------------

  /** `is_zero`: an int is zero iff it equals 0, a float iff it is within
      the tolerance, and any other value raises ValueError. */
  function IsZero(c: Cell): (r: Outcome<bool>)
    ensures c.IntCell? ==> r == Ok(c.n == 0)
    ensures c.FloatCell? ==> r == Ok(c.belowTolerance)
    ensures r.Err? <==> c.OtherCell?
    ensures r.Err? ==> r.error == ValueError
  {
    match c
    case IntCell(n) => Ok(n == 0)
    case FloatCell(small) => Ok(small)
    case OtherCell => Err(ValueError)
  }

  // ---------------------------------------------------------------------
  // load_gene_ids
  // ---------------------------------------------------------------------

  /** The (gene, ENSG id) items of gene_ensg_id_dict.json whose gene is a key
      of gene_to_id.json, in their original order. */
  function KeptPairs(pairs: seq<(string, string)>, selected: set<string>): (kept: seq<(string, string)>)
    ensures |kept| <= |pairs|
    ensures forall p :: p in kept <==> p in pairs && p.0 in selected
  {
    if pairs == [] then []
    else (if pairs[0].0 in selected then [pairs[0]] else []) + KeptPairs(pairs[1..], selected)
  }

  /** Keeping distributes over concatenation, so the kept items stay in order. */
  lemma {:induction false} KeptPairsConcat(a: seq<(string, string)>, b: seq<(string, string)>, selected: set<string>)
    ensures KeptPairs(a + b, selected) == KeptPairs(a, selected) + KeptPairs(b, selected)
  {
    if a != [] {
      KeptPairsConcat(a[1..], b, selected);
      assert (a + b)[1..] == a[1..] + b;
    } else {
      assert a + b == b;
    }
  }

  /** `{v: k for k, v in pairs}`: for a repeated id the later pair wins. */
  function Invert(pairs: seq<(string, string)>): (m: map<string, string>)
    ensures forall v :: v in m <==> exists p :: p in pairs && p.1 == v
    ensures forall v :: v in m ==> (m[v], v) in pairs
  {
    if pairs == [] then map[]
    else
      var last := pairs[|pairs| - 1];
      var m := Invert(pairs[..|pairs| - 1]);
      assert pairs == pairs[..|pairs| - 1] + [last];
      m[last.1 := last.0]
  }

  /** The gene an id maps to is the gene of the last pair with that id. */
  lemma {:induction false} InvertLastWins(pairs: seq<(string, string)>, i: nat)
    requires i < |pairs|
    requires forall j :: i < j < |pairs| ==> pairs[j].1 != pairs[i].1
    ensures Invert(pairs)[pairs[i].1] == pairs[i].0
  {
    if i < |pairs| - 1 {
      InvertLastWins(pairs[..|pairs| - 1], i);
    }
  }

  /** `load_gene_ids`: the ENSG ids of the kept pairs, in order, and the map
      from each of those ids back to a kept gene. */
  function LoadGeneIds(geneIdData: seq<(string, string)>, selected: set<string>): (r: (seq<string>, map<string, string>))
    ensures var kept := KeptPairs(geneIdData, selected);
      |r.0| == |kept| && forall i :: 0 <= i < |kept| ==> r.0[i] == kept[i].1
    ensures forall v :: v in r.1 <==> v in r.0
    ensures forall v :: v in r.1 ==> r.1[v] in selected && (r.1[v], v) in geneIdData
    ensures r.1 == Invert(KeptPairs(geneIdData, selected))
  {
    var kept := KeptPairs(geneIdData, selected);
    (Ids(kept), Invert(kept))
  }

  /** `[p[1] for p in pairs]`. */
  function Ids(pairs: seq<(string, string)>): (ids: seq<string>)
    ensures |ids| == |pairs| && forall i :: 0 <= i < |pairs| ==> ids[i] == pairs[i].1
    ensures forall v :: v in ids <==> exists p :: p in pairs && p.1 == v
  {
    if pairs == [] then []
    else
      assert forall p :: p in pairs ==> p == pairs[0] || p in pairs[1..];
      [pairs[0].1] + Ids(pairs[1..])
  }

  // ---------------------------------------------------------------------
  // Sample selection
  // ---------------------------------------------------------------------

  /** One entry of the cart metadata: the file's id and name, and the TCGA
      barcode of its associated entity. */
  datatype CartItem = CartItem(fileId: string, fileName: string, tcgaId: string)

  /** The dash-separated fields of the barcode. */
  function Fields(item: CartItem): (f: seq<string>)
    ensures |f| >= 1
  {
    Split(item.tcgaId, '-')
  }

  /** `tcga_id.split("-")[3]` does not raise IndexError. */
  predicate WellFormed(item: CartItem)
  {
    |Fields(item)| >= 4
  }

  /** The sample-vial field, e.g. "01A". */
  function Vial(item: CartItem): (v: string)
    requires WellFormed(item)
    ensures v in Split(item.tcgaId, '-') && '-' !in v
  {
    Fields(item)[3]
  }

  /** The first four fields of the barcode, joined again by dashes. */
  function SampleId(item: CartItem): (s: string)
    requires WellFormed(item)
    ensures s <= item.tcgaId
    ensures Split(s, '-') == Fields(item)[..4]
  {
    JoinSplit(item.tcgaId, '-');
    JoinPrefix(Fields(item), '-', 4);
    SplitJoin(Fields(item)[..4], '-');
    Join(Fields(item)[..4], '-')
  }

  /** Primary solid tumour (01A) or solid tissue normal (11A). */
  predicate Wanted(item: CartItem): (b: bool)
    ensures b ==> WellFormed(item) && (Vial(item) == "01A" || Vial(item) == "11A")
  {
    WellFormed(item) && (Vial(item) == "01A" || Vial(item) == "11A")
  }

  /** Two wanted items with different vials, such as the tumour and the
      normal sample of one patient, never share a sample id. */
  lemma VialsSeparateSamples(a: CartItem, b: CartItem)
    requires Wanted(a) && Wanted(b) && Vial(a) != Vial(b)
    ensures SampleId(a) != SampleId(b)
  {
    assert Split(SampleId(a), '-')[3] == Vial(a);
    assert Split(SampleId(b), '-')[3] == Vial(b);
  }

  /** 1 for a tumour sample, 0 for a normal one. */
  function Label(item: CartItem): (r: int)
    ensures r == 0 || r == 1
    ensures Wanted(item) ==> (r == 0 <==> Vial(item) == "11A")
  {
    if WellFormed(item) && Vial(item) == "01A" then 1 else 0
  }

  /** The item at position `i` is wanted and no earlier wanted item has the
      same sample id: it is the one the loop keeps for that sample. */
  predicate FirstOfSample(cart: seq<CartItem>, i: nat)
    requires i < |cart|
  {
    Wanted(cart[i]) &&
    forall j :: 0 <= j < i && Wanted(cart[j]) ==> SampleId(cart[j]) != SampleId(cart[i])
  }

  /** Whether `t` occurs in `s` (`str.contains`). */
  predicate Contains(s: string, t: string): (b: bool)
    ensures b <==> exists i :: 0 <= i && OccursAt(s, t, i)
  {
    if t <= s then
      assert OccursAt(s, t, 0);
      true
    else if s == [] then
      false
    else
      assert forall i :: 0 <= i && OccursAt(s[1..], t, i) ==> OccursAt(s, t, i + 1);
      assert forall i :: 0 < i && OccursAt(s, t, i) ==> OccursAt(s[1..], t, i - 1);
      Contains(s[1..], t)
  }

  /** `t` occurs in `s` starting at position `i`. */
  predicate OccursAt(s: string, t: string, i: nat)
  {
    i + |t| <= |s| && s[i..i + |t|] == t
  }

  /** The (gene_id, tpm_unstranded) rows of a sample table that are used:
      the first four rows dropped (`iloc[4:]`), then every row whose gene id
      contains "_PAR_Y". */
  function ExpressionRows(table: seq<(string, Cell)>): (rows: seq<(string, Cell)>)
    ensures forall r :: r in rows <==> r in (if |table| >= 4 then table[4..] else []) && !Contains(r.0, "_PAR_Y")
  {
    var body := if |table| >= 4 then table[4..] else [];
    DropPar(body)
  }

  function DropPar(rows: seq<(string, Cell)>): (kept: seq<(string, Cell)>)
    ensures |kept| <= |rows|
    ensures forall r :: r in kept <==> r in rows && !Contains(r.0, "_PAR_Y")
  {
    if rows == [] then []
    else (if Contains(rows[0].0, "_PAR_Y") then [] else [rows[0]]) + DropPar(rows[1..])
  }

  /** Dropping distributes over concatenation, so the kept rows stay in order. */
  lemma {:induction false} DropParConcat(a: seq<(string, Cell)>, b: seq<(string, Cell)>)
    ensures DropPar(a + b) == DropPar(a) + DropPar(b)
  {
    if a != [] {
      var h := if Contains(a[0].0, "_PAR_Y") then [] else [a[0]];
      var tail := a[1..] + b;
      assert (a + b)[0] == a[0] && (a + b)[1..] == tail;
      assert DropPar(a + b) == h + DropPar(tail);
      DropParConcat(a[1..], b);
    } else {
      assert a + b == b;
    }
  }

  /** `iloc[4:]` drops exactly the first four rows, and the rows after them
      are filtered in order. */
  lemma ExpressionRowsConcat(header: seq<(string, Cell)>, a: seq<(string, Cell)>, b: seq<(string, Cell)>)
    requires |header| == 4
    ensures ExpressionRows(header + a + b) == DropPar(a) + DropPar(b)
  {
    assert (header + a + b)[4..] == a + b;
    DropParConcat(a, b);
  }

  /** `tmp_dict`: each gene id's value, the later row winning. */
  function Latest(rows: seq<(string, Cell)>): (m: map<string, Cell>)
    ensures forall k :: k in m <==> exists r :: r in rows && r.0 == k
    ensures forall k :: k in m ==> (k, m[k]) in rows
  {
    if rows == [] then map[]
    else
      var last := rows[|rows| - 1];
      assert rows == rows[..|rows| - 1] + [last];
      Latest(rows[..|rows| - 1])[last.0 := last.1]
  }

  /** A gene id's value is that of the last row with that id. */
  lemma {:induction false} LatestLastWins(rows: seq<(string, Cell)>, i: nat)
    requires i < |rows|
    requires forall j :: i < j < |rows| ==> rows[j].0 != rows[i].0
    ensures Latest(rows)[rows[i].0] == rows[i].1
  {
    if i < |rows| - 1 {
      LatestLastWins(rows[..|rows| - 1], i);
    }
  }

  /** For each id with its version suffix cut off, the greatest full id (in
      `sorted` order) and that id's value. The rows are inserted in table
      order and each insertion keeps the greater id; iterating over the
      sorted keys, as the source does, leaves the same id last. */
  function Collapse(rows: seq<(string, Cell)>): (c: map<string, (string, Cell)>)
    ensures forall s :: s in c <==> exists r :: r in rows && Head(r.0, '.') == s
    ensures forall s :: s in c ==> (c[s].0, c[s].1) in rows
  {
    if rows == [] then map[]
    else
      var (k, v) := rows[|rows| - 1];
      Insert(Collapse(rows[..|rows| - 1]), k, v)
  }

  /** Entry `k` with value `v` meets the entry already kept for its truncation. */
  function Insert(c: map<string, (string, Cell)>, k: string, v: Cell): (c': map<string, (string, Cell)>)
    ensures c'.Keys == c.Keys + {Head(k, '.')}
    ensures forall s :: s in c && s != Head(k, '.') ==> c'[s] == c[s]
    ensures c'[Head(k, '.')] == (k, v) || (Head(k, '.') in c && c'[Head(k, '.')] == c[Head(k, '.')])
    ensures c'[Head(k, '.')].0 == k || Less(k, c'[Head(k, '.')].0)
    ensures Head(k, '.') in c ==> !Less(c'[Head(k, '.')].0, c[Head(k, '.')].0)
  {
    var s := Head(k, '.');
    if s in c && Less(k, c[s].0) then LessIrreflexive(c[s].0); c else c[s := (k, v)]
  }

  /** `c` keeps, for every truncation `s` of an id of `t`, the greatest id of
      `t` with that truncation, and that id's value in `t`. */
  ghost predicate Greatest(t: map<string, Cell>, c: map<string, (string, Cell)>)
  {
    KeysMatch(t, c) && EntriesMatch(t, c) && EntriesGreatest(t, c)
  }

  ghost predicate KeysMatch(t: map<string, Cell>, c: map<string, (string, Cell)>)
  {
    forall s :: s in c <==> exists k :: k in t && Head(k, '.') == s
  }

  ghost predicate EntriesMatch(t: map<string, Cell>, c: map<string, (string, Cell)>)
  {
    forall s :: s in c ==> c[s].0 in t && Head(c[s].0, '.') == s && c[s].1 == t[c[s].0]
  }

  ghost predicate EntriesGreatest(t: map<string, Cell>, c: map<string, (string, Cell)>)
  {
    forall s, k :: s in c && k in t && Head(k, '.') == s ==> k == c[s].0 || Less(k, c[s].0)
  }

  lemma InsertKeepsKeys(t: map<string, Cell>, c: map<string, (string, Cell)>, k: string, v: Cell)
    requires KeysMatch(t, c)
    ensures KeysMatch(t[k := v], Insert(c, k, v))
  {
    var c', t' := Insert(c, k, v), t[k := v];
    forall s | s in c' ensures exists k' :: k' in t' && Head(k', '.') == s {
      if s != Head(k, '.') {
        assert s in c;
        var k' :| k' in t && Head(k', '.') == s;
        assert k' in t';
      }
    }
  }

  lemma InsertKeepsEntries(t: map<string, Cell>, c: map<string, (string, Cell)>, k: string, v: Cell)
    requires EntriesMatch(t, c)
    ensures EntriesMatch(t[k := v], Insert(c, k, v))
  {
    var s := Head(k, '.');
    var c', t' := Insert(c, k, v), t[k := v];
    forall s' | s' in c'
      ensures c'[s'].0 in t' && Head(c'[s'].0, '.') == s' && c'[s'].1 == t'[c'[s'].0]
    {
      if s' != s {
        assert c'[s'] == c[s'];
      } else if s in c && Less(k, c[s].0) {
        LessIrreflexive(k);
        assert c'[s'] == c[s];
      }
    }
  }

  lemma InsertKeepsGreatestEntries(t: map<string, Cell>, c: map<string, (string, Cell)>, k: string, v: Cell)
    requires KeysMatch(t, c) && EntriesGreatest(t, c)
    ensures EntriesGreatest(t[k := v], Insert(c, k, v))
  {
    var s := Head(k, '.');
    var c', t' := Insert(c, k, v), t[k := v];
    forall s', k' | s' in c' && k' in t' && Head(k', '.') == s'
      ensures k' == c'[s'].0 || Less(k', c'[s'].0)
    {
      if k' != k {
        assert k' in t;
        if s' == s && c' != c {
          assert s in c;
          LessTotal(k, c[s].0);
          if k' != c[s].0 && c[s].0 != k {
            LessTransitive(k', c[s].0, k);
          }
        } else if s' != s {
          assert c'[s'] == c[s'];
        }
      }
    }
  }

  lemma {:induction false} CollapseIsGreatest(rows: seq<(string, Cell)>)
    ensures Greatest(Latest(rows), Collapse(rows))
  {
    if rows != [] {
      var (k, v) := rows[|rows| - 1];
      CollapseIsGreatest(rows[..|rows| - 1]);
      var t, c := Latest(rows[..|rows| - 1]), Collapse(rows[..|rows| - 1]);
      InsertKeepsKeys(t, c, k, v);
      InsertKeepsEntries(t, c, k, v);
      InsertKeepsGreatestEntries(t, c, k, v);
    }
  }

  /** `sample_info`: the expression values keyed by the ids without their
      version suffix, plus the sample's label under "label". */
  function SampleInfo(rows: seq<(string, Cell)>, sampleLabel: int): (info: map<string, Cell>)
    ensures "label" in info && info["label"] == IntCell(sampleLabel)
    ensures forall s :: s in info <==> s == "label" || exists r :: r in rows && Head(r.0, '.') == s
  {
    var c := Collapse(rows);
    CollapseIsGreatest(rows);
    assert forall r :: r in rows ==> r.0 in Latest(rows);
    (map s | s in c :: c[s].1)["label" := IntCell(sampleLabel)]
  }

  /** Where several ids share a truncation, the value kept is that of the
      greatest of them, the one `sorted` puts last, as the later row of the
      table gives it. */
  lemma SampleInfoValue(rows: seq<(string, Cell)>, sampleLabel: int, s: string)
    requires s in SampleInfo(rows, sampleLabel) && s != "label"
    ensures var t := Latest(rows);
      exists k :: k in t && Head(k, '.') == s && SampleInfo(rows, sampleLabel)[s] == t[k] &&
        forall k' :: k' in t && Head(k', '.') == s ==> k' == k || Less(k', k)
  {
    CollapseIsGreatest(rows);
    var c := Collapse(rows);
    assert s in c;
    var k := c[s].0;
    assert k in Latest(rows) && Head(k, '.') == s;
  }

  /** What the loop produces: the kept barcodes and their sample records. */
  datatype Selection = Selection(samples: seq<string>, data: seq<map<string, Cell>>)

  /** The sample record of a kept cart item, read through `read`, the table
      reader keyed by file id and file name. */
  function Info(item: CartItem, read: (string, string) -> seq<(string, Cell)>): (info: map<string, Cell>)
    ensures "label" in info && info["label"] == IntCell(Label(item))
    ensures forall s :: s in info <==>
      s == "label" || exists r :: r in ExpressionRows(read(item.fileId, item.fileName)) && Head(r.0, '.') == s
  {
    SampleInfo(ExpressionRows(read(item.fileId, item.fileName)), Label(item))
  }

  /** Positions of the cart items the loop keeps among the first `n`. */
  function Chosen(cart: seq<CartItem>, n: nat): (c: seq<nat>)
    requires n <= |cart|
    ensures forall a :: 0 <= a < |c| ==> c[a] < n && FirstOfSample(cart, c[a])
    ensures forall i: nat :: i < n && FirstOfSample(cart, i) ==> i in c
    ensures forall a, b :: 0 <= a < b < |c| ==> c[a] < c[b]
  {
    if n == 0 then []
    else Chosen(cart, n - 1) + (if FirstOfSample(cart, n - 1) then [n - 1] else [])
  }

  /** The sample ids of the wanted items among the first `n`: `samples_set`. */
  function Seen(cart: seq<CartItem>, n: nat): (s: set<string>)
    requires n <= |cart|
    ensures forall j :: 0 <= j < n && Wanted(cart[j]) ==> SampleId(cart[j]) in s
  {
    set j | 0 <= j < n && Wanted(cart[j]) :: SampleId(cart[j])
  }

  lemma SeenStep(cart: seq<CartItem>, n: nat)
    requires n < |cart|
    ensures Seen(cart, n + 1) == Seen(cart, n) + (if Wanted(cart[n]) then {SampleId(cart[n])} else {})
  {
    var a, b := Seen(cart, n + 1), Seen(cart, n) + (if Wanted(cart[n]) then {SampleId(cart[n])} else {});
    forall x | x in a ensures x in b {
      var j :| 0 <= j < n + 1 && Wanted(cart[j]) && SampleId(cart[j]) == x;
      if j < n {
        assert x in Seen(cart, n);
      }
    }
    forall x | x in b ensures x in a {
      if x in Seen(cart, n) {
        var j :| 0 <= j < n && Wanted(cart[j]) && SampleId(cart[j]) == x;
        assert j < n + 1;
      }
    }
    assert a == b;
  }

  /** A wanted item is the first of its sample iff its sample id is not yet seen. */
  lemma FirstIffUnseen(cart: seq<CartItem>, i: nat)
    requires i < |cart| && Wanted(cart[i])
    ensures FirstOfSample(cart, i) <==> SampleId(cart[i]) !in Seen(cart, i)
  {
  }

  /** The selection made from the first `n` cart items. */
  function Selected(cart: seq<CartItem>, read: (string, string) -> seq<(string, Cell)>, n: nat): (r: Selection)
    requires n <= |cart|
    ensures |r.samples| == |r.data|
  {
    if n == 0 then Selection([], [])
    else
      var p := Selected(cart, read, n - 1);
      if FirstOfSample(cart, n - 1) then
        Selection(p.samples + [cart[n - 1].tcgaId], p.data + [Info(cart[n - 1], read)])
      else p
  }

  /** The selection holds, in cart order, the barcodes and sample records of
      exactly the chosen items. */
  lemma {:induction false} SelectedIsChosen(cart: seq<CartItem>, read: (string, string) -> seq<(string, Cell)>, n: nat)
    requires n <= |cart|
    ensures var r, c := Selected(cart, read, n), Chosen(cart, n);
      |r.samples| == |c| &&
      forall j :: 0 <= j < |c| ==> r.samples[j] == cart[c[j]].tcgaId && r.data[j] == Info(cart[c[j]], read)
  {
    if n > 0 {
      SelectedIsChosen(cart, read, n - 1);
      var p, c := Selected(cart, read, n - 1), Chosen(cart, n - 1);
      if FirstOfSample(cart, n - 1) {
        assert Chosen(cart, n) == c + [n - 1];
        var r := Selected(cart, read, n);
        assert r.samples == p.samples + [cart[n - 1].tcgaId];
        assert r.data == p.data + [Info(cart[n - 1], read)];
      }
    }
  }

  /** No two kept items share a sample id. */
  lemma ChosenDistinctSamples(cart: seq<CartItem>, n: nat, a: nat, b: nat)
    requires n <= |cart|
    requires a < b < |Chosen(cart, n)|
    ensures var c := Chosen(cart, n);
      Wanted(cart[c[a]]) && Wanted(cart[c[b]]) && SampleId(cart[c[a]]) != SampleId(cart[c[b]])
  {
    var c := Chosen(cart, n);
    assert c[a] in c && c[b] in c;
  }

  /** Every wanted item among the first `n` has its sample represented, by an
      item at or before it: the first occurrence in cart order. */
  lemma {:induction false} ChosenCoversSamples(cart: seq<CartItem>, n: nat, i: nat)
    requires i < n <= |cart|
    requires Wanted(cart[i])
    ensures exists j :: j in Chosen(cart, n) && j <= i && SampleId(cart[j]) == SampleId(cart[i])
  {
    if FirstOfSample(cart, i) {
      assert i in Chosen(cart, n);
    } else {
      var j :| 0 <= j < i && Wanted(cart[j]) && SampleId(cart[j]) == SampleId(cart[i]);
      ChosenCoversSamples(cart, n, j);
    }
  }

  /** A kept sample is labelled 1 iff its vial is "01A", and 0 iff it is "11A". */
  lemma LabelIsTumour(cart: seq<CartItem>, read: (string, string) -> seq<(string, Cell)>, j: nat)
    requires j < |Selected(cart, read, |cart|).data|
    ensures var c := Chosen(cart, |cart|);
      j < |c| && Wanted(cart[c[j]]) &&
      var d := Selected(cart, read, |cart|).data[j];
      "label" in d && (d["label"] == IntCell(1) <==> Vial(cart[c[j]]) == "01A") &&
      (d["label"] == IntCell(0) <==> Vial(cart[c[j]]) == "11A")
  {
    SelectedIsChosen(cart, read, |cart|);
  }

  /** The sample-selection loop. It raises IndexError at the first barcode
      with fewer than four fields; otherwise it keeps, in cart order, the
      first wanted item of each sample. */
  method SelectSamples(cart: seq<CartItem>, read: (string, string) -> seq<(string, Cell)>) returns (r: Outcome<Selection>)
    ensures r.Err? <==> exists i :: 0 <= i < |cart| && !WellFormed(cart[i])
    ensures r.Err? ==> r.error == IndexError
    ensures r.Ok? ==> r.value == Selected(cart, read, |cart|)
  {
    var samples: seq<string> := [];
    var data: seq<map<string, Cell>> := [];
    var samplesSet: set<string> := {};
    for i := 0 to |cart|
      invariant forall j :: 0 <= j < i ==> WellFormed(cart[j])
      invariant Selection(samples, data) == Selected(cart, read, i)
      invariant samplesSet == Seen(cart, i)
    {
      var item := cart[i];
      SeenStep(cart, i);
      var fields := Split(item.tcgaId, '-');
      if |fields| < 4 {
        return Err(IndexError);
      }
      var sampleVial := fields[3];
      assert sampleVial == Vial(item);
      if sampleVial != "01A" && sampleVial != "11A" {
        continue;
      }
      var sampleId := Join(fields[..4], '-');
      assert sampleId == SampleId(item);
      FirstIffUnseen(cart, i);
      if sampleId in samplesSet {
        continue;
      }
      var rows := ExpressionRows(read(item.fileId, item.fileName));
      var sampleLabel := if sampleVial == "01A" then 1 else 0;
      var sampleInfo := SampleInfo(rows, sampleLabel);
      assert sampleInfo == Info(item, read);
      samples := samples + [item.tcgaId];
      samplesSet := samplesSet + {sampleId};
      data := data + [sampleInfo];
    }
    r := Ok(Selection(samples, data));
  }

  // ---------------------------------------------------------------------
  // Low-expression filter
  // ---------------------------------------------------------------------

  /** A gene column of the expression matrix. */
  datatype Column = Column(name: string, values: seq<Cell>)

  /** `sum([1 if is_zero(v) else 0 for v in values])`; ValueError if any value
      is neither int nor float. */
  function ZeroCount(values: seq<Cell>): (r: Outcome<nat>)
    ensures r.Err? <==> exists v :: v in values && v.OtherCell?
    ensures r.Err? ==> r.error == ValueError
    ensures r.Ok? ==> r.value == multiset(values)[IntCell(0)] + multiset(values)[FloatCell(true)]
    ensures r.Ok? ==> r.value <= |values|
    ensures r.Ok? ==> (r.value == 0 <==> forall v :: v in values ==> IsZero(v) == Ok(false))
    ensures r.Ok? ==> (r.value == |values| <==> forall v :: v in values ==> IsZero(v) == Ok(true))
  {
    if values == [] then Ok(0)
    else
      match IsZero(values[0])
      case Err(e) => Err(e)
      case Ok(z) =>
        match ZeroCount(values[1..])
        case Err(e) => Err(e)
        case Ok(rest) =>
          assert forall v :: v in values ==> v == values[0] || v in values[1..];
          assert values == [values[0]] + values[1..];
          Ok((if z then 1 else 0) + rest)
  }

  /** `percentage_0 > 0.50`, as the exact comparison zeros / N > 1 / 2. */
  predicate MostlyZero(zeros: nat, rows: nat): (b: bool)
    ensures rows > 0 ==> (b <==> (zeros as real) / (rows as real) > 0.5)
  {
    if rows > 0 then HalfThreshold(zeros as real, rows as real); 2 * zeros > rows
    else 2 * zeros > rows
  }

  /** A ratio to a positive total exceeds one half iff twice the numerator
      exceeds the total. */
  lemma HalfThreshold(z: real, n: real)
    requires n > 0.0
    ensures z / n > 0.5 <==> 2.0 * z > n
  {
    var q := z / n;
    assert z == q * n;
    var d := q - 0.5;
    assert 2.0 * z - n == 2.0 * d * n;
    if d > 0.0 {
      assert d * n > 0.0;
    } else {
      assert d * n <= 0.0;
    }
  }

  /** `names` put in front of the names of a successful outcome. */
  function Prepend(names: seq<string>, r: Outcome<seq<string>>): Outcome<seq<string>>
  {
    match r
    case Ok(rest) => Ok(names + rest)
    case Err(e) => Err(e)
  }

  /** The names of the gene columns the filter keeps, in order; the first
      column whose zero test raises, or whose division by a zero row count
      raises, ends it with that error. */
  function KeptGenes(columns: seq<Column>, rows: nat): (r: Outcome<seq<string>>)
    ensures r.Ok? ==> |r.value| <= |columns|
    ensures r.Ok? ==> forall n :: n in r.value ==>
      exists c :: c in columns && c.name == n && ZeroCount(c.values).Ok? && !MostlyZero(ZeroCount(c.values).value, rows)
    ensures r.Ok? ==> forall c :: c in columns ==>
      ZeroCount(c.values).Ok? && (MostlyZero(ZeroCount(c.values).value, rows) || c.name in r.value)
  {
    if columns == [] then Ok([])
    else
      match ZeroCount(columns[0].values)
      case Err(e) => Err(e)
      case Ok(z) =>
        if rows == 0 then Err(ZeroDivisionError)
        else Prepend(if MostlyZero(z, rows) then [] else [columns[0].name], KeptGenes(columns[1..], rows))
  }

  /** A single column is kept iff at most half of its values are zero. */
  lemma SingleColumn(col: Column, rows: nat, z: nat)
    requires rows > 0 && ZeroCount(col.values) == Ok(z)
    ensures KeptGenes([col], rows) == Ok(if 2 * z <= rows then [col.name] else [])
  {
    assert [col][1..] == [];
    var head := if MostlyZero(z, rows) then [] else [col.name];
    assert head + [] == head;
  }

  /** Filtering distributes over concatenation: columns keep their order, and
      whether a column is kept depends on that column alone. */
  lemma {:induction false} KeptGenesConcat(a: seq<Column>, b: seq<Column>, rows: nat)
    requires KeptGenes(a, rows).Ok?
    ensures KeptGenes(a + b, rows) == Prepend(KeptGenes(a, rows).value, KeptGenes(b, rows))
  {
    if a == [] {
      assert a + b == b;
      PrependNothing(KeptGenes(b, rows));
    } else {
      assert (a + b)[0] == a[0];
      assert (a + b)[1..] == a[1..] + b;
      KeptGenesConcat(a[1..], b, rows);
      var z := ZeroCount(a[0].values).value;
      var head := if MostlyZero(z, rows) then [] else [a[0].name];
      PrependTwice(head, KeptGenes(a[1..], rows).value, KeptGenes(b, rows));
    }
  }

  lemma PrependNothing(r: Outcome<seq<string>>)
    ensures Prepend([], r) == r
  {
    match r {
      case Ok(rest) => assert [] + rest == rest;
      case Err(_) =>
    }
  }

  lemma PrependTwice(x: seq<string>, y: seq<string>, r: Outcome<seq<string>>)
    ensures Prepend(x, Prepend(y, r)) == Prepend(x + y, r)
  {
    match r {
      case Ok(rest) => assert x + (y + rest) == (x + y) + rest;
      case Err(_) =>
    }
  }

  /** The filter fails exactly when the table has no rows but some gene
      column (ZeroDivisionError), or when some value is neither int nor float
      (ValueError). */
  lemma {:induction false} KeptGenesErrors(columns: seq<Column>, rows: nat)
    requires forall c :: c in columns ==> |c.values| == rows
    ensures rows == 0 && columns != [] ==> KeptGenes(columns, rows) == Err(ZeroDivisionError)
    ensures rows > 0 ==> (KeptGenes(columns, rows).Err? <==> exists c, v :: c in columns && v in c.values && v.OtherCell?)
  {
    if columns != [] {
      KeptGenesErrors(columns[1..], rows);
      assert columns[0] in columns;
      assert columns == [columns[0]] + columns[1..];
    }
  }

  /** The low-expression filter loop: the kept gene columns in order, then
      "label". */
  method SelectGenes(columns: seq<Column>, rows: nat) returns (r: Outcome<seq<string>>)
    ensures r.Ok? <==> KeptGenes(columns, rows).Ok?
    ensures r.Ok? ==> r.value == KeptGenes(columns, rows).value + ["label"]
    ensures r.Err? ==> r.error == KeptGenes(columns, rows).error
  {
    var genesSelected: seq<string> := [];
    assert columns[0..] == columns;
    PrependNothing(KeptGenes(columns, rows));
    for i := 0 to |columns|
      invariant KeptGenes(columns, rows) == Prepend(genesSelected, KeptGenes(columns[i..], rows))
    {
      assert columns[i..][0] == columns[i];
      assert columns[i..][1..] == columns[i + 1..];
      var col := columns[i];
      var zeros := ZeroCount(col.values);
      if zeros.Err? {
        return Err(zeros.error);
      }
      if rows == 0 {
        return Err(ZeroDivisionError);
      }
      var z := zeros.value;
      PrependTwice(genesSelected, if MostlyZero(z, rows) then [] else [col.name], KeptGenes(columns[i + 1..], rows));
      if MostlyZero(z, rows) {
        assert genesSelected + [] == genesSelected;
        continue;
      } else {
        genesSelected := genesSelected + [col.name];
      }
    }
    assert columns[|columns|..] == [];
    genesSelected := genesSelected + ["label"];
    r := Ok(genesSelected);
  }
}

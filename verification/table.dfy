/** The pure part of `Browser.extract_table` (core/browser_manager.py): from the rows
    of an HTML table, each seen as the texts of its `th` cells and of its `td` cells
    in document order, to a list of Python dicts. A dict is modelled as what Python
    keeps: its entries in insertion order, each key once. */
module Table {
  import opened Outcomes
  import opened Decimal

  /** The characters `str.isspace()` accepts, which `str.strip()` removes. */
  predicate IsSpace(c: char)
  {
    c == ' ' || '\t' <= c <= '\r' || '\U{1c}' <= c <= '\U{1f}' || c == '\U{85}' || c == '\U{a0}'
    || c == '\U{1680}' || '\U{2000}' <= c <= '\U{200a}' || c == '\U{2028}' || c == '\U{2029}'
    || c == '\U{202f}' || c == '\U{205f}' || c == '\U{3000}'
  }

  /** Length of the leading whitespace of `s`. */
  function LeadingSpace(s: string): (i: nat)
    ensures i <= |s|
    ensures forall k :: 0 <= k < i ==> IsSpace(s[k])
    ensures i < |s| ==> !IsSpace(s[i])
  {
    if |s| == 0 || !IsSpace(s[0]) then 0 else 1 + LeadingSpace(s[1..])
  }

  /** Length of `s` without its trailing whitespace. */
  function WithoutTrailingSpace(s: string): (j: nat)
    ensures j <= |s|
    ensures forall k :: j <= k < |s| ==> IsSpace(s[k])
    ensures j > 0 ==> !IsSpace(s[j - 1])
  {
    if |s| == 0 || !IsSpace(s[|s| - 1]) then |s| else WithoutTrailingSpace(s[..|s| - 1])
  }

  /** `s.strip()`: the slice of `s` between its leading and its trailing whitespace. */
  function Strip(s: string): (r: string)
  {
    var t := s[LeadingSpace(s)..];
    t[..WithoutTrailingSpace(t)]
  }

  /** `s.strip()` is the slice of `s` left after removing all leading and all
      trailing whitespace: it neither starts nor ends with whitespace, and only
      whitespace lies outside it. */
  lemma StripSpec(s: string)
    ensures LeadingSpace(s) + |Strip(s)| <= |s|
    ensures Strip(s) == s[LeadingSpace(s)..LeadingSpace(s) + |Strip(s)|]
    ensures forall k :: 0 <= k < LeadingSpace(s) ==> IsSpace(s[k])
    ensures forall k :: LeadingSpace(s) + |Strip(s)| <= k < |s| ==> IsSpace(s[k])
    ensures |Strip(s)| > 0 ==> !IsSpace(Strip(s)[0]) && !IsSpace(Strip(s)[|Strip(s)| - 1])
  {
    var i := LeadingSpace(s);
    var t := s[i..];
    var j := WithoutTrailingSpace(t);
    assert Strip(s) == t[..j];
    forall k | i + j <= k < |s| ensures IsSpace(s[k]) {
      assert s[k] == t[k - i];
    }
  }

  /** Stripping twice strips nothing more. */
  lemma StripIdempotent(s: string)
    ensures Strip(Strip(s)) == Strip(s)
  {
    StripSpec(s);
    var r := Strip(s);
    if |r| > 0 {
      assert LeadingSpace(r) == 0;
      assert WithoutTrailingSpace(r) == |r|;
      assert r[0..] == r;
    }
  }

  // ---------------------------------------------------------------------------
  // Python dicts from string to string
  // ---------------------------------------------------------------------------

  datatype Entry = Entry(key: string, value: string)

  /** A dict's entries in insertion order. */
  type Record = seq<Entry>

  function Keys(d: Record): (ks: seq<string>)
    ensures |ks| == |d|
  {
    seq(|d|, i requires 0 <= i < |d| => d[i].key)
  }

  predicate UniqueKeys(d: Record)
  {
    forall i, j :: 0 <= i < j < |d| ==> d[i].key != d[j].key
  }

  /** `d.get(k)`. */
  function Lookup(d: Record, k: string): Option<string>
  {
    if |d| == 0 then None else if d[0].key == k then Some(d[0].value) else Lookup(d[1..], k)
  }

  /** `d[k] = v`. */
  function Put(d: Record, k: string, v: string): Record
  {
    if |d| == 0 then [Entry(k, v)]
    else if d[0].key == k then [Entry(k, v)] + d[1..]
    else [d[0]] + Put(d[1..], k, v)
  }

  /** After `d[k] = v`, `k` maps to `v` and every other key to what it mapped to. */
  lemma {:induction false} PutLookup(d: Record, k: string, v: string, k': string)
    ensures Lookup(Put(d, k, v), k') == if k' == k then Some(v) else Lookup(d, k')
  {
    if |d| > 0 && d[0].key != k {
      PutLookup(d[1..], k, v, k');
      assert ([d[0]] + Put(d[1..], k, v))[1..] == Put(d[1..], k, v);
    }
  }

  /** An existing key keeps its position; a new key goes last. */
  lemma {:induction false} PutKeys(d: Record, k: string, v: string)
    ensures Keys(Put(d, k, v)) == if k in Keys(d) then Keys(d) else Keys(d) + [k]
  {
    if |d| == 0 {
      assert Keys([Entry(k, v)]) == [k];
    } else {
      KeysCons(d[0], d[1..]);
      assert [d[0]] + d[1..] == d;
      if d[0].key != k {
        PutKeys(d[1..], k, v);
        KeysCons(d[0], Put(d[1..], k, v));
      } else {
        KeysCons(Entry(k, v), d[1..]);
      }
    }
  }

  lemma KeysCons(e: Entry, d: Record)
    ensures Keys([e] + d) == [e.key] + Keys(d)
  {
    var a, b := Keys([e] + d), [e.key] + Keys(d);
    forall i | 0 <= i < |a| ensures a[i] == b[i] {
      if i > 0 {
        assert ([e] + d)[i] == d[i - 1];
      }
    }
  }

  /** A key is looked up as absent exactly when it is not among the keys. */
  lemma {:induction false} LookupAbsent(d: Record, k: string)
    ensures Lookup(d, k).None? <==> k !in Keys(d)
  {
    if |d| > 0 {
      assert Keys(d) == [d[0].key] + Keys(d[1..]);
      LookupAbsent(d[1..], k);
    }
  }

  // ---------------------------------------------------------------------------
  // One table row
  // ---------------------------------------------------------------------------

  /** `f"col_{i}"`. */
  function ColName(i: nat): string
  {
    "col_" + Dec(i)
  }

  lemma ColNameInjective(i: nat, j: nat)
    requires ColName(i) == ColName(j)
    ensures i == j
  {
    assert Dec(i) == ColName(i)[4..];
    assert Dec(j) == ColName(j)[4..];
    DecInjective(i, j);
  }

  /** `headers[i] if i < len(headers) else f"col_{i}"`. */
  function KeyFor(headers: seq<string>, i: nat): string
  {
    if i < |headers| then headers[i] else ColName(i)
  }

  /** `{KeyFor(headers, i): values[i] for i in range(n)}`. */
  function RowPrefix(headers: seq<string>, values: seq<string>, n: nat): Record
    requires n <= |values|
  {
    if n == 0 then [] else Put(RowPrefix(headers, values, n - 1), KeyFor(headers, n - 1), values[n - 1])
  }

  /** The dict built for one data row from its stripped cell texts. */
  function BuildRow(headers: seq<string>, values: seq<string>): Record
  {
    RowPrefix(headers, values, |values|)
  }

  /** The value stored under the key of cell i is cell i's text when no later cell
      has the same key: a later duplicate key overwrites an earlier one. */
  lemma {:induction false} RowPrefixLookupLast(headers: seq<string>, values: seq<string>, n: nat, i: nat)
    requires i < n <= |values|
    requires forall j :: i < j < n ==> KeyFor(headers, j) != KeyFor(headers, i)
    ensures Lookup(RowPrefix(headers, values, n), KeyFor(headers, i)) == Some(values[i])
  {
    PutLookup(RowPrefix(headers, values, n - 1), KeyFor(headers, n - 1), values[n - 1], KeyFor(headers, i));
    if i < n - 1 {
      RowPrefixLookupLast(headers, values, n - 1, i);
    }
  }

  /** A key no cell maps to is absent. */
  lemma {:induction false} RowPrefixLookupAbsent(headers: seq<string>, values: seq<string>, n: nat, k: string)
    requires n <= |values|
    requires forall j :: 0 <= j < n ==> KeyFor(headers, j) != k
    ensures Lookup(RowPrefix(headers, values, n), k) == None
  {
    if n > 0 {
      PutLookup(RowPrefix(headers, values, n - 1), KeyFor(headers, n - 1), values[n - 1], k);
      RowPrefixLookupAbsent(headers, values, n - 1, k);
    }
  }

  /** The row dict, key by key: the key of a cell holds the text of the LAST cell
      with that key, and keys no cell maps to are absent. */
  lemma RowLookup(headers: seq<string>, values: seq<string>, k: string)
    ensures (forall j :: 0 <= j < |values| ==> KeyFor(headers, j) != k) ==> Lookup(BuildRow(headers, values), k) == None
    ensures forall i :: 0 <= i < |values| && KeyFor(headers, i) == k
                        && (forall j :: i < j < |values| ==> KeyFor(headers, j) != k)
                        ==> Lookup(BuildRow(headers, values), k) == Some(values[i])
  {
    if forall j :: 0 <= j < |values| ==> KeyFor(headers, j) != k {
      RowPrefixLookupAbsent(headers, values, |values|, k);
    }
    forall i | 0 <= i < |values| && KeyFor(headers, i) == k && (forall j :: i < j < |values| ==> KeyFor(headers, j) != k)
      ensures Lookup(BuildRow(headers, values), k) == Some(values[i])
    {
      RowPrefixLookupLast(headers, values, |values|, i);
    }
  }

  /** The dict lists cell i's key and text in position i. */
  function Zip(headers: seq<string>, values: seq<string>, n: nat): (r: Record)
    requires n <= |values|
    ensures |r| == n && forall i :: 0 <= i < n ==> r[i] == Entry(KeyFor(headers, i), values[i])
  {
    seq(n, i requires 0 <= i < n => Entry(KeyFor(headers, i), values[i]))
  }

  /** The cells' keys are pairwise different. */
  predicate DistinctKeys(headers: seq<string>, n: nat)
  {
    forall i, j :: 0 <= i < j < n ==> KeyFor(headers, i) != KeyFor(headers, j)
  }

  /** With pairwise different keys nothing is overwritten: the dict is the cells in
      document order. */
  lemma {:induction false} RowPrefixDistinct(headers: seq<string>, values: seq<string>, n: nat)
    requires n <= |values| && DistinctKeys(headers, n)
    ensures RowPrefix(headers, values, n) == Zip(headers, values, n)
  {
    if n > 0 {
      RowPrefixDistinct(headers, values, n - 1);
      var d := Zip(headers, values, n - 1);
      var k := KeyFor(headers, n - 1);
      forall i | 0 <= i < |d| ensures Keys(d)[i] != k {
        assert Keys(d)[i] == KeyFor(headers, i);
      }
      PutNewKey(d, k, values[n - 1]);
      ZipSnoc(headers, values, n);
    }
  }

  lemma ZipSnoc(headers: seq<string>, values: seq<string>, n: nat)
    requires 0 < n <= |values|
    ensures Zip(headers, values, n) == Zip(headers, values, n - 1) + [Entry(KeyFor(headers, n - 1), values[n - 1])]
  {
    var a, b := Zip(headers, values, n), Zip(headers, values, n - 1) + [Entry(KeyFor(headers, n - 1), values[n - 1])];
    forall i | 0 <= i < n ensures a[i] == b[i] {
      if i < n - 1 {
        assert b[i] == Zip(headers, values, n - 1)[i];
      }
    }
  }

  lemma {:induction false} PutNewKey(d: Record, k: string, v: string)
    requires k !in Keys(d)
    ensures Put(d, k, v) == d + [Entry(k, v)]
  {
    if |d| > 0 {
      assert Keys(d) == [d[0].key] + Keys(d[1..]);
      PutNewKey(d[1..], k, v);
      assert d + [Entry(k, v)] == [d[0]] + (d[1..] + [Entry(k, v)]);
    }
  }

  /** A row dict depends on the header list only through the keys it gives cells. */
  lemma {:induction false} RowPrefixSameKeys(h1: seq<string>, h2: seq<string>, values: seq<string>, n: nat)
    requires n <= |values|
    requires forall i :: 0 <= i < n ==> KeyFor(h1, i) == KeyFor(h2, i)
    ensures RowPrefix(h1, values, n) == RowPrefix(h2, values, n)
  {
    if n > 0 {
      RowPrefixSameKeys(h1, h2, values, n - 1);
    }
  }

  // ---------------------------------------------------------------------------
  // The table
  // ---------------------------------------------------------------------------

  /** One `tr` element: the texts of the `th` cells and of the `td` cells it holds. */
  datatype Row = Row(ths: seq<string>, tds: seq<string>)

  /** `[c.text.strip() for c in cells]`. */
  function StripAll(ts: seq<string>): (r: seq<string>)
    ensures |r| == |ts| && forall i :: 0 <= i < |ts| ==> r[i] == Strip(ts[i])
  {
    seq(|ts|, i requires 0 <= i < |ts| => Strip(ts[i]))
  }

  /** `[f"col_{i}" for i in range(n)]`. */
  function ColNames(n: nat): (r: seq<string>)
    ensures |r| == n && forall i :: 0 <= i < n ==> r[i] == ColName(i)
  {
    seq(n, i requires 0 <= i < n => ColName(i))
  }

  /** The column names and the rows that carry data. */
  datatype Layout = Layout(headers: seq<string>, data: seq<Row>)

  /** The header decision of `extract_table`. */
  function SplitHeader(rows: seq<Row>, header: bool): Layout
  {
    if header && |rows| > 0 then
      if |rows[0].ths| > 0 then Layout(StripAll(rows[0].ths), rows[1..])
      else Layout(ColNames(|rows[0].tds|), rows)
    else Layout([], rows)
  }

  /** The `for r in data_rows` loop: rows without `td` cells are skipped. */
  function ExtractRows(headers: seq<string>, data: seq<Row>): (out: seq<Record>)
    ensures |out| <= |data|
  {
    if |data| == 0 then []
    else
      var rest := ExtractRows(headers, data[1..]);
      if |data[0].tds| == 0 then rest else [BuildRow(headers, StripAll(data[0].tds))] + rest
  }

  /** `extract_table(...)` on a table whose rows are `rows`. */
  function ExtractTable(rows: seq<Row>, header: bool): seq<Record>
  {
    var layout := SplitHeader(rows, header);
    ExtractRows(layout.headers, layout.data)
  }

  /** The rows that produce output: those with at least one `td`, in document order. */
  function Kept(data: seq<Row>): (k: seq<Row>)
    ensures |k| <= |data|
    ensures forall i :: 0 <= i < |k| ==> |k[i].tds| > 0
  {
    if |data| == 0 then [] else (if |data[0].tds| == 0 then [] else [data[0]]) + Kept(data[1..])
  }

  /** Kept distributes over concatenation, so it keeps the relative order of rows. */
  lemma {:induction false} KeptAppend(a: seq<Row>, b: seq<Row>)
    ensures Kept(a + b) == Kept(a) + Kept(b)
  {
    if |a| > 0 {
      assert (a + b)[1..] == a[1..] + b;
      KeptAppend(a[1..], b);
    } else {
      assert a + b == b;
    }
  }

  /** Output row k is the dict of the k-th row that has `td` cells. */
  lemma {:induction false} ExtractRowsIsKept(headers: seq<string>, data: seq<Row>)
    ensures |ExtractRows(headers, data)| == |Kept(data)|
    ensures forall k :: 0 <= k < |Kept(data)| ==>
              ExtractRows(headers, data)[k] == BuildRow(headers, StripAll(Kept(data)[k].tds))
  {
    if |data| > 0 {
      ExtractRowsIsKept(headers, data[1..]);
      var out, rest := ExtractRows(headers, data), ExtractRows(headers, data[1..]);
      var kept, keptRest := Kept(data), Kept(data[1..]);
      if |data[0].tds| > 0 {
        assert out == [BuildRow(headers, StripAll(data[0].tds))] + rest;
        assert kept == [data[0]] + keptRest;
        forall k | 0 <= k < |kept| ensures out[k] == BuildRow(headers, StripAll(kept[k].tds)) {
          if k > 0 {
            assert out[k] == rest[k - 1] && kept[k] == keptRest[k - 1];
          }
        }
      } else {
        assert out == rest && kept == keptRest;
      }
    }
  }

  /** Header case: the first row has `th` cells, so their stripped texts name the
      columns and that row yields no data. */
  lemma HeaderRowNamesColumns(rows: seq<Row>)
    requires |rows| > 0 && |rows[0].ths| > 0
    ensures ExtractTable(rows, true) == ExtractRows(StripAll(rows[0].ths), rows[1..])
    ensures |ExtractTable(rows, true)| == |Kept(rows[1..])|
  {
    ExtractRowsIsKept(StripAll(rows[0].ths), rows[1..]);
  }

  /** Without a header row, the synthesized names `col_0 .. col_{n-1}` are exactly the
      fallback keys, so asking for a header changes nothing. */
  lemma NoHeaderRowSameAsNoHeader(rows: seq<Row>)
    requires |rows| == 0 || |rows[0].ths| == 0
    ensures ExtractTable(rows, true) == ExtractTable(rows, false)
  {
    if |rows| > 0 {
      var n := |rows[0].tds|;
      forall r: Row | true
        ensures BuildRow(ColNames(n), StripAll(r.tds)) == BuildRow([], StripAll(r.tds))
      {
        RowPrefixSameKeys(ColNames(n), [], StripAll(r.tds), |r.tds|);
      }
      ExtractRowsSameRows(ColNames(n), [], rows);
    }
  }

  lemma {:induction false} ExtractRowsSameRows(h1: seq<string>, h2: seq<string>, data: seq<Row>)
    requires forall r: Row :: BuildRow(h1, StripAll(r.tds)) == BuildRow(h2, StripAll(r.tds))
    ensures ExtractRows(h1, data) == ExtractRows(h2, data)
  {
    if |data| > 0 {
      ExtractRowsSameRows(h1, h2, data[1..]);
    }
  }

  /** Without a header, every output dict maps `col_i` to the stripped text of cell i,
      in cell order. */
  lemma NoHeaderColumnsAreOrdinal(rows: seq<Row>, k: nat)
    requires k < |Kept(rows)|
    ensures |ExtractTable(rows, false)| == |Kept(rows)|
    ensures ExtractTable(rows, false)[k]
         == seq(|Kept(rows)[k].tds|, c requires 0 <= c < |Kept(rows)[k].tds| => Entry(ColName(c), Strip(Kept(rows)[k].tds[c])))
  {
    ExtractRowsIsKept([], rows);
    var tds := StripAll(Kept(rows)[k].tds);
    forall i, j | 0 <= i < j < |tds| ensures KeyFor([], i) != KeyFor([], j) {
      if ColName(i) == ColName(j) {
        ColNameInjective(i, j);
      }
    }
    RowPrefixDistinct([], tds, |tds|);
  }

  /** A header row of k distinct names over data rows of exactly k cells each: one
      dict per data row, holding exactly the header's columns in order. */
  lemma HeaderedTableIsRectangular(rows: seq<Row>, i: nat)
    requires |rows| > 0 && |rows[0].ths| > 0
    requires forall a, b :: 0 <= a < b < |rows[0].ths| ==> Strip(rows[0].ths[a]) != Strip(rows[0].ths[b])
    requires forall r :: 1 <= r < |rows| ==> |rows[r].tds| == |rows[0].ths|
    requires i < |rows| - 1
    ensures |ExtractTable(rows, true)| == |rows| - 1
    ensures ExtractTable(rows, true)[i]
         == seq(|rows[0].ths|, c requires 0 <= c < |rows[0].ths| => Entry(Strip(rows[0].ths[c]), Strip(rows[i + 1].tds[c])))
  {
    DataRowsKept(rows);
    ExtractRowsIsKept(StripAll(rows[0].ths), rows[1..]);
    assert rows[1..][i] == rows[i + 1];
    RectangularRow(rows[0].ths, rows[i + 1].tds);
  }

  lemma DataRowsKept(rows: seq<Row>)
    requires |rows| > 0 && |rows[0].ths| > 0
    requires forall r :: 1 <= r < |rows| ==> |rows[r].tds| == |rows[0].ths|
    ensures Kept(rows[1..]) == rows[1..]
  {
    var data := rows[1..];
    forall r | 0 <= r < |data| ensures |data[r].tds| > 0 {
      assert data[r] == rows[r + 1];
    }
    KeptAllRows(data);
  }

  /** A row with one cell per header name, the names pairwise different after
      stripping: the dict pairs name c with cell c, in order. */
  lemma RectangularRow(ths: seq<string>, tds: seq<string>)
    requires |tds| == |ths|
    requires forall a, b :: 0 <= a < b < |ths| ==> Strip(ths[a]) != Strip(ths[b])
    ensures BuildRow(StripAll(ths), StripAll(tds))
         == seq(|ths|, c requires 0 <= c < |ths| => Entry(Strip(ths[c]), Strip(tds[c])))
  {
    var headers, values, n := StripAll(ths), StripAll(tds), |ths|;
    forall a, b | 0 <= a < b < n ensures KeyFor(headers, a) != KeyFor(headers, b) {
      assert KeyFor(headers, a) == Strip(ths[a]) && KeyFor(headers, b) == Strip(ths[b]);
    }
    RowPrefixDistinct(headers, values, n);
  }

  lemma {:induction false} KeptAllRows(data: seq<Row>)
    requires forall r :: 0 <= r < |data| ==> |data[r].tds| > 0
    ensures Kept(data) == data
  {
    if |data| > 0 {
      KeptAllRows(data[1..]);
    }
  }
}

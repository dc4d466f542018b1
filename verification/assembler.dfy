/** The document assembler: turns one gene's wide PubMed row, with its
    repeated `titleN` / `abstractN` / `pmidN` columns, into a list of
    documents. */
module Assembler {
  import opened Chars
  import opened Wrappers
  import opened Strings
  import opened Decimal

  /** One cell of the row: its column label and its text. The table is read
      with every cell as a string and missing cells filled with "". */
  datatype Cell = Cell(name: string, value: string)

  type Row = seq<Cell>

  /** A column of one family together with the integer value of its suffix. */
  datatype Column = Column(suffix: nat, value: string)

  /** One PubMed citation as the rest of the script sees it. */
  datatype Doc = Doc(pmid: string, title: string, abstractText: string, text: string)

  const TitlePrefix := "title"
  const AbstractPrefix := "abstract"
  const PmidPrefix := "pmid"

  // ---------------------------------------------------------------------
  // Column families
  // ---------------------------------------------------------------------

  /** `name` matches `^<prefix>\d+$` with exactly these digits. Python's `$`
      also matches just before a final line feed, so one trailing "\n" is
      accepted; `int` ignores it when the suffix is converted. */
  predicate FamilyLabel(name: string, prefix: string, digits: string) {
    && |digits| > 0
    && AllDigits(digits)
    && (name == prefix + digits || name == prefix + digits + "\n")
  }

  /** The numeric suffix of a family column, or None for any other label. */
  function FamilySuffix(name: string, prefix: string): Option<nat> {
    if |name| > |prefix| && name[..|prefix|] == prefix then
      var rest := name[|prefix|..];
      var digits := if rest[|rest| - 1] == '\n' then rest[..|rest| - 1] else rest;
      if |digits| > 0 && AllDigits(digits) then Some(ParseDigits(digits)) else None
    else
      None
  }

  /** A label has a suffix exactly when it matches the family pattern, and
      the suffix is the value of the digits it matches with. */
  lemma FamilySuffixSpec(name: string, prefix: string)
    ensures var r := FamilySuffix(name, prefix);
            && (r.Some? ==> exists digits :: FamilyLabel(name, prefix, digits) && ParseDigits(digits) == r.value)
            && (r.None? ==> forall digits :: !FamilyLabel(name, prefix, digits))
  {
    if |name| > |prefix| && name[..|prefix|] == prefix {
      var rest := name[|prefix|..];
      var digits := if rest[|rest| - 1] == '\n' then rest[..|rest| - 1] else rest;
      assert name == prefix + rest;
      assert rest[|rest| - 1] == '\n' ==> rest == digits + "\n";
      if |digits| > 0 && AllDigits(digits) {
        assert FamilyLabel(name, prefix, digits);
      } else {
        assert forall d :: !FamilyLabel(name, prefix, d);
      }
    }
  }

  /** The cells of one family, in row order, with their suffixes. */
  function Family(row: Row, prefix: string): (cols: seq<Column>)
    ensures |cols| <= |row|
    decreases |row|
  {
    if row == [] then []
    else
      var head := match FamilySuffix(row[0].name, prefix)
                  case Some(n) => [Column(n, row[0].value)]
                  case None => [];
      head + Family(row[1..], prefix)
  }

  /** Every selected column is a matching cell with its parsed suffix. */
  lemma {:induction false} FamilySound(row: Row, prefix: string)
    ensures forall c :: c in Family(row, prefix) ==>
              exists k :: 0 <= k < |row| && row[k].value == c.value && FamilySuffix(row[k].name, prefix) == Some(c.suffix)
    decreases |row|
  {
    if row != [] {
      FamilySound(row[1..], prefix);
      forall c | c in Family(row, prefix)
        ensures exists k :: 0 <= k < |row| && row[k].value == c.value && FamilySuffix(row[k].name, prefix) == Some(c.suffix)
      {
        if c !in Family(row[1..], prefix) {
          assert row[0].value == c.value && FamilySuffix(row[0].name, prefix) == Some(c.suffix);
        } else {
          var k :| 0 <= k < |row[1..]| && row[1..][k].value == c.value && FamilySuffix(row[1..][k].name, prefix) == Some(c.suffix);
          assert row[k + 1] == row[1..][k];
        }
      }
    }
  }

  /** Every matching cell is selected. */
  lemma {:induction false} FamilyComplete(row: Row, prefix: string)
    ensures forall k :: 0 <= k < |row| && FamilySuffix(row[k].name, prefix).Some? ==>
              Column(FamilySuffix(row[k].name, prefix).value, row[k].value) in Family(row, prefix)
    decreases |row|
  {
    if row != [] {
      FamilyComplete(row[1..], prefix);
      forall k | 0 <= k < |row| && FamilySuffix(row[k].name, prefix).Some?
        ensures Column(FamilySuffix(row[k].name, prefix).value, row[k].value) in Family(row, prefix)
      {
        if k > 0 {
          assert row[k] == row[1..][k - 1];
        }
      }
    }
  }

  /** Column selection keeps row order: the family of two concatenated rows is the
      family of the first followed by the family of the second. */
  lemma {:induction false} FamilyAppend(a: Row, b: Row, prefix: string)
    ensures Family(a + b, prefix) == Family(a, prefix) + Family(b, prefix)
    decreases |a|
  {
    if a == [] {
      assert a + b == b;
    } else {
      assert (a + b)[0] == a[0];
      assert (a + b)[1..] == a[1..] + b;
      FamilyAppend(a[1..], b, prefix);
    }
  }

  // ---------------------------------------------------------------------
  // Stable sort by suffix (Python's `sorted` with an integer key)
  // ---------------------------------------------------------------------

  predicate SortedBySuffix(cols: seq<Column>) {
    forall j, k :: 0 <= j < k < |cols| ==> cols[j].suffix <= cols[k].suffix
  }

  /** The columns carrying suffix `n`, in their order of appearance. */
  function WithSuffix(cols: seq<Column>, n: nat): seq<Column>
    decreases |cols|
  {
    if cols == [] then []
    else (if cols[0].suffix == n then [cols[0]] else []) + WithSuffix(cols[1..], n)
  }

  /** Places `x` before the first column whose suffix is not smaller, so it
      precedes every column with an equal suffix. */
  function Insert(x: Column, cols: seq<Column>): (r: seq<Column>)
    ensures multiset(r) == multiset(cols) + multiset{x}
    decreases |cols|
  {
    if cols == [] || x.suffix <= cols[0].suffix then
      [x] + cols
    else
      assert cols == [cols[0]] + cols[1..];
      [cols[0]] + Insert(x, cols[1..])
  }

  /** Inserting into a sorted sequence keeps it sorted. */
  lemma {:induction false} InsertSorted(x: Column, cols: seq<Column>)
    requires SortedBySuffix(cols)
    ensures SortedBySuffix(Insert(x, cols))
    decreases |cols|
  {
    if cols == [] || x.suffix <= cols[0].suffix {
      SortedCons(x, cols);
    } else {
      var rest := Insert(x, cols[1..]);
      InsertSorted(x, cols[1..]);
      LowerBoundKept(cols[0].suffix, x, cols[1..], rest);
      SortedCons(cols[0], rest);
    }
  }

  /** A lower bound on the suffixes of `b` and on `x` bounds every
      suffix of a rearrangement `a` of `b` plus `x`. */
  lemma LowerBoundKept(lo: nat, x: Column, b: seq<Column>, a: seq<Column>)
    requires multiset(a) == multiset(b) + multiset{x}
    requires lo <= x.suffix
    requires forall k :: 0 <= k < |b| ==> lo <= b[k].suffix
    ensures forall k :: 0 <= k < |a| ==> lo <= a[k].suffix
  {
    forall k | 0 <= k < |a|
      ensures lo <= a[k].suffix
    {
      assert a[k] in multiset(a);
      if a[k] != x {
        assert a[k] in multiset(b);
      }
    }
  }

  /** A column no larger than every element of a sorted sequence can lead it. */
  lemma SortedCons(c: Column, cols: seq<Column>)
    requires SortedBySuffix(cols)
    requires forall k :: 0 <= k < |cols| ==> c.suffix <= cols[k].suffix
    ensures SortedBySuffix([c] + cols)
  {
  }

  /** Inserting `x` adds it at the front of its own suffix group and leaves
      the other groups alone. */
  lemma {:induction false} InsertGroups(x: Column, cols: seq<Column>, n: nat)
    ensures WithSuffix(Insert(x, cols), n) == (if x.suffix == n then [x] else []) + WithSuffix(cols, n)
    decreases |cols|
  {
    if cols == [] || x.suffix <= cols[0].suffix {
      assert ([x] + cols)[1..] == cols;
    } else {
      var rest := Insert(x, cols[1..]);
      InsertGroups(x, cols[1..], n);
      assert ([cols[0]] + rest)[1..] == rest;
    }
  }

  /** Python's stable `sorted` by integer suffix: ordered by suffix, and the
      columns sharing a suffix keep their original relative order. */
  function SortBySuffix(cols: seq<Column>): (r: seq<Column>)
    ensures SortedBySuffix(r)
    ensures multiset(r) == multiset(cols)
    ensures forall n :: WithSuffix(r, n) == WithSuffix(cols, n)
    decreases |cols|
  {
    if cols == [] then []
    else
      var rest := SortBySuffix(cols[1..]);
      assert cols == [cols[0]] + cols[1..];
      InsertSorted(cols[0], rest);
      assert forall n :: WithSuffix(Insert(cols[0], rest), n) == WithSuffix(cols, n) by {
        forall n
          ensures WithSuffix(Insert(cols[0], rest), n) == WithSuffix(cols, n)
        {
          InsertGroups(cols[0], rest, n);
        }
      }
      Insert(cols[0], rest)
  }

  /** A sorted sequence is determined by its per-suffix groups, so the
      contract of SortBySuffix pins its result down completely. */
  lemma {:induction false} SortedByGroupsUnique(a: seq<Column>, b: seq<Column>)
    requires SortedBySuffix(a) && SortedBySuffix(b)
    requires forall n :: WithSuffix(a, n) == WithSuffix(b, n)
    ensures a == b
    decreases |a| + |b|
  {
    if a == [] {
      if b != [] {
        HeadLeadsGroup(b);
        assert false;
      }
    } else if b == [] {
      HeadLeadsGroup(a);
      assert false;
    } else {
      var m := a[0].suffix;
      HeadLeadsGroup(a);
      HeadLeadsGroup(b);
      if b[0].suffix < m {
        NoneBelowFirst(a, b[0].suffix);
        assert false;
      }
      if m < b[0].suffix {
        NoneBelowFirst(b, m);
        assert false;
      }
      assert a[0] == WithSuffix(a, m)[0] == WithSuffix(b, m)[0] == b[0];
      forall n
        ensures WithSuffix(a[1..], n) == WithSuffix(b[1..], n)
      {
        if m == n {
          assert WithSuffix(a[1..], n) == WithSuffix(a, n)[1..];
          assert WithSuffix(b[1..], n) == WithSuffix(b, n)[1..];
        } else {
          assert WithSuffix(a[1..], n) == WithSuffix(a, n);
          assert WithSuffix(b[1..], n) == WithSuffix(b, n);
        }
      }
      SortedByGroupsUnique(a[1..], b[1..]);
      assert a == [a[0]] + a[1..];
      assert b == [b[0]] + b[1..];
    }
  }

  /** The first column opens the group of its own suffix. */
  lemma HeadLeadsGroup(cols: seq<Column>)
    requires cols != []
    ensures WithSuffix(cols, cols[0].suffix) == [cols[0]] + WithSuffix(cols[1..], cols[0].suffix)
  {
  }

  /** In a sorted sequence no column has a suffix below the first one's. */
  lemma {:induction false} NoneBelowFirst(cols: seq<Column>, n: nat)
    requires SortedBySuffix(cols)
    requires cols != [] && n < cols[0].suffix
    ensures WithSuffix(cols, n) == []
    decreases |cols|
  {
    if |cols| > 1 {
      NoneBelowFirst(cols[1..], n);
    }
  }

  /** A family's columns in the order the script visits them. */
  function SortedFamily(row: Row, prefix: string): seq<Column> {
    SortBySuffix(Family(row, prefix))
  }

  // ---------------------------------------------------------------------
  // Documents
  // ---------------------------------------------------------------------

  /** `(title + ". " + abstract).strip(". ")`. */
  function DocText(title: string, abstractText: string): string {
    Strip(title + ". " + abstractText, DotOrSpace)
  }

  /** The shape of a document text: no dot or space at either end; the
      separator disappears when one side is empty; and when both sides are
      present and do not border it with dots or spaces, the text is exactly
      title, ". ", abstract. */
  lemma DocTextShape(title: string, abstractText: string)
    ensures var text := DocText(title, abstractText);
            && Stripped(text, DotOrSpace)
            && (title == "" ==> text == Strip(abstractText, DotOrSpace))
            && (abstractText == "" ==> text == Strip(title, DotOrSpace))
            && (title != "" && abstractText != "" && !IsDotOrSpace(title[0]) && !IsDotOrSpace(abstractText[|abstractText| - 1])
                ==> text == title + ". " + abstractText)
  {
    if title == "" {
      assert title + ". " + abstractText == ". " + abstractText;
      StripDroppablePrefix(". ", abstractText, DotOrSpace);
    }
    if abstractText == "" {
      assert title + ". " + abstractText == title + ". ";
      StripDroppableSuffix(title, ". ", DotOrSpace);
    }
    if title != "" && abstractText != "" && !IsDotOrSpace(title[0]) && !IsDotOrSpace(abstractText[|abstractText| - 1]) {
      var s := title + ". " + abstractText;
      assert s[0] == title[0];
      assert s[|s| - 1] == abstractText[|abstractText| - 1];
      StripOfStripped(s, DotOrSpace);
    }
  }

  /** The document built from list position `i`: the i-th title and the
      i-th abstract (by position, not by suffix), and the i-th pmid when
      there are that many pmid columns. */
  function DocAt(titles: seq<Column>, abstracts: seq<Column>, pmids: seq<Column>, i: nat): Doc
    requires i < |titles| && i < |abstracts|
  {
    var title := Strip(titles[i].value, Whitespace);
    var abstractText := Strip(abstracts[i].value, Whitespace);
    var pmid := if i < |pmids| then Strip(pmids[i].value, Whitespace) else "";
    Doc(pmid, title, abstractText, DocText(title, abstractText))
  }

  /** A position whose title and abstract are both empty once stripped is skipped. */
  predicate Blank(titles: seq<Column>, abstracts: seq<Column>, i: nat)
    requires i < |titles| && i < |abstracts|
  {
    Strip(titles[i].value, Whitespace) == "" && Strip(abstracts[i].value, Whitespace) == ""
  }

  function Min(a: nat, b: nat): nat {
    if a < b then a else b
  }

  /** The documents of every zipped position, blank or not. */
  function Candidates(titles: seq<Column>, abstracts: seq<Column>, pmids: seq<Column>): (docs: seq<Doc>)
    ensures |docs| == Min(|titles|, |abstracts|)
    ensures forall p :: 0 <= p < |docs| ==> docs[p] == DocAt(titles, abstracts, pmids, p)
  {
    seq(Min(|titles|, |abstracts|), p requires 0 <= p < Min(|titles|, |abstracts|) => DocAt(titles, abstracts, pmids, p))
  }

  /** Which zipped positions are blank. */
  function BlankMask(titles: seq<Column>, abstracts: seq<Column>): (mask: seq<bool>)
    ensures |mask| == Min(|titles|, |abstracts|)
    ensures forall p :: 0 <= p < |mask| ==> mask[p] == Blank(titles, abstracts, p)
  {
    seq(Min(|titles|, |abstracts|), p requires 0 <= p < Min(|titles|, |abstracts|) => Blank(titles, abstracts, p))
  }

  /** The loop of the assembler: walks the positions in order, skipping
      the marked ones and appending the others. `positions` records
      where each kept item came from. */
  method KeepUnskipped<T>(items: seq<T>, skip: seq<bool>) returns (kept: seq<T>, positions: seq<nat>)
    requires |skip| == |items|
    ensures |positions| == |kept| <= |items|
    ensures forall j :: 0 <= j < |kept| ==> positions[j] < |items| && kept[j] == items[positions[j]]
    ensures forall j, k :: 0 <= j < k < |positions| ==> positions[j] < positions[k]
    ensures forall p :: 0 <= p < |items| ==> (skip[p] <==> p !in positions)
  {
    kept, positions := [], [];
    var i: nat := 0;
    while i < |items|
      invariant i <= |items|
      invariant |positions| == |kept| <= i
      invariant forall j :: 0 <= j < |kept| ==> positions[j] < i && kept[j] == items[positions[j]]
      invariant forall j, k :: 0 <= j < k < |positions| ==> positions[j] < positions[k]
      invariant forall p :: 0 <= p < i ==> (skip[p] <==> p !in positions)
    {
      if !skip[i] {
        kept := kept + [items[i]];
        positions := positions + [i];
      }
      i := i + 1;
    }
  }

  /** The zip of a title and an abstract family: one document per list
      position that is not blank, in position order, the i-th title with
      the i-th abstract. */
  method PairDocs(titles: seq<Column>, abstracts: seq<Column>, pmids: seq<Column>)
    returns (docs: seq<Doc>, positions: seq<nat>)
    ensures |positions| == |docs| <= Min(|titles|, |abstracts|)
    ensures forall j :: 0 <= j < |docs| ==>
              positions[j] < Min(|titles|, |abstracts|) && docs[j] == DocAt(titles, abstracts, pmids, positions[j])
    ensures forall j, k :: 0 <= j < k < |positions| ==> positions[j] < positions[k]
    ensures forall i :: 0 <= i < Min(|titles|, |abstracts|) ==> (Blank(titles, abstracts, i) <==> i !in positions)
  {
    docs, positions := KeepUnskipped(Candidates(titles, abstracts, pmids), BlankMask(titles, abstracts));
  }

  /** `concat_docs_for_gene`: the three families are each sorted by suffix
      and then paired position by position. */
  method ConcatDocs(row: Row) returns (docs: seq<Doc>, positions: seq<nat>)
    ensures var titles := SortedFamily(row, TitlePrefix);
            var abstracts := SortedFamily(row, AbstractPrefix);
            var pmids := SortedFamily(row, PmidPrefix);
            && |positions| == |docs| <= Min(|titles|, |abstracts|)
            && (forall j :: 0 <= j < |docs| ==>
                  positions[j] < Min(|titles|, |abstracts|) && docs[j] == DocAt(titles, abstracts, pmids, positions[j]))
            && (forall j, k :: 0 <= j < k < |positions| ==> positions[j] < positions[k])
            && (forall i :: 0 <= i < Min(|titles|, |abstracts|) ==> (Blank(titles, abstracts, i) <==> i !in positions))
  {
    docs, positions := PairDocs(SortedFamily(row, TitlePrefix), SortedFamily(row, AbstractPrefix), SortedFamily(row, PmidPrefix));
  }

  /** The pmid of a document is empty whenever its position has no pmid
      column, and every document has a non-empty title or abstract. */
  lemma DocAtFields(titles: seq<Column>, abstracts: seq<Column>, pmids: seq<Column>, i: nat)
    requires i < |titles| && i < |abstracts|
    ensures var d := DocAt(titles, abstracts, pmids, i);
            && (i >= |pmids| ==> d.pmid == "")
            && (d.title == "" && d.abstractText == "" <==> Blank(titles, abstracts, i))
            && Stripped(d.title, Whitespace) && Stripped(d.abstractText, Whitespace) && Stripped(d.pmid, Whitespace)
  {
  }

  /** Titles and abstracts are paired by list position, not by suffix: with
      titles 1 and 3 and abstracts 1 and 2, the second document joins
      title 3 with abstract 2. */
  lemma PositionalPairing()
    ensures var titles := [Column(1, "T1"), Column(3, "T3")];
            var abstracts := [Column(1, "A1"), Column(2, "A2")];
            var d := DocAt(titles, abstracts, [], 1);
            d.title == "T3" && d.abstractText == "A2" && d.pmid == ""
  {
    StripOfStripped("T3", Whitespace);
    StripOfStripped("A2", Whitespace);
  }

  /** A title with an empty abstract, or an empty title with an abstract,
      gives just that title or abstract as text: the separator is stripped
      away (the title "A" with no abstract gives the text "A"). */
  lemma SeparatorStripped(part: string)
    requires Stripped(part, DotOrSpace)
    ensures DocText(part, "") == part
    ensures DocText("", part) == part
  {
    DocTextShape(part, "");
    DocTextShape("", part);
    StripOfStripped(part, DotOrSpace);
  }
}

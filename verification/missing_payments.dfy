/**
 Missing payments read from the accounting client: the entries of a case
 are merged by title and status with their amounts summed, case nodes are
 picked by the property number in their text, and amounts arrive as Danish
 display strings such as "1.234,56-".

 Amounts are exact decimals (`real`), not binary floating point. Driving
 the client's tree and grid controls is outside the model: the tree
 arrives as its list of nodes (or nothing, when the person is not found)
 and a case's grid as its list of rows.
 */
module MissingPayments {
  import opened Results
  import opened Digits
  import Text

  datatype Entry = Entry(title: string, status: string, amount: real)

  datatype Case = Case(title: string, entries: seq<Entry>)

  datatype Person = Person(name: string, cpr: string, cases: seq<Case>)

  /** What merges two entries: the same title and the same status. */
  datatype Key = Key(title: string, status: string)

  function KeyOf(e: Entry): Key
  {
    Key(e.title, e.status)
  }

  predicate HasKey(es: seq<Entry>, k: Key)
  {
    exists j :: 0 <= j < |es| && KeyOf(es[j]) == k
  }

  /** No two entries share a title and status. */
  predicate UniqueKeys(es: seq<Entry>)
  {
    forall i, j :: 0 <= i < j < |es| ==> KeyOf(es[i]) != KeyOf(es[j])
  }

  /** Sum of all amounts. */
  function Total(es: seq<Entry>): real
  {
    if es == [] then 0.0 else Total(es[..|es| - 1]) + es[|es| - 1].amount
  }

  /** Sum of the amounts of the entries with key `k`. */
  function KeyTotal(es: seq<Entry>, k: Key): real
  {
    if es == [] then 0.0
    else KeyTotal(es[..|es| - 1], k) + (if KeyOf(es[|es| - 1]) == k then es[|es| - 1].amount else 0.0)
  }

  /** Position of the first entry with key `k`, scanning from the front. */
  function FirstWithKey(es: seq<Entry>, k: Key): (r: Option<nat>)
    ensures r.None? <==> !HasKey(es, k)
    ensures r.Some? ==>
              && r.value < |es|
              && KeyOf(es[r.value]) == k
              && forall j :: 0 <= j < r.value ==> KeyOf(es[j]) != k
  {
    if es == [] then None
    else if KeyOf(es[0]) == k then Some(0)
    else
      match FirstWithKey(es[1..], k)
      case None =>
        assert forall j :: 1 <= j < |es| ==> es[j] == es[1..][j - 1];
        None
      case Some(i) =>
        assert es[i + 1] == es[1..][i];
        assert forall j :: 1 <= j <= i ==> es[j] == es[1..][j - 1];
        Some(i + 1)
  }

  /** `MissingPaymentCase.append_entry`: the new entry's amount is added to the
      first entry with the same title and status; when there is none, the new
      entry goes at the end. */
  function AppendEntry(es: seq<Entry>, e: Entry): (r: seq<Entry>)
    ensures HasKey(es, KeyOf(e)) ==>
      && |r| == |es|
      && exists i :: 0 <= i < |es| && KeyOf(es[i]) == KeyOf(e)
           && (forall j :: 0 <= j < i ==> KeyOf(es[j]) != KeyOf(e))
           && r[i] == es[i].(amount := es[i].amount + e.amount)
           && forall j :: 0 <= j < |es| && j != i ==> r[j] == es[j]
    ensures !HasKey(es, KeyOf(e)) ==> |r| == |es| + 1 && r[..|es|] == es && r[|es|] == e
  {
    match FirstWithKey(es, KeyOf(e))
    case Some(i) => es[i := es[i].(amount := es[i].amount + e.amount)]
    case None => es + [e]
  }

  /** Entries built directly may repeat a key; only the first of them
      gains the new amount. */
  lemma AppendEntryFirstOfRepeated()
    ensures AppendEntry([Entry("t", "s", 1.0), Entry("t", "s", 2.0)], Entry("t", "s", 5.0))
         == [Entry("t", "s", 6.0), Entry("t", "s", 2.0)]
  {
  }

  lemma {:induction false} KeyTotalAppend(es: seq<Entry>, e: Entry, k: Key)
    ensures KeyTotal(es + [e], k) == KeyTotal(es, k) + (if KeyOf(e) == k then e.amount else 0.0)
  {
    assert (es + [e])[..|es|] == es;
  }

  /** Changing one entry's amount changes the total of its key by the same. */
  lemma {:induction false} KeyTotalUpdate(es: seq<Entry>, i: nat, x: real, k: Key)
    requires i < |es|
    ensures KeyTotal(es[i := es[i].(amount := x)], k)
         == KeyTotal(es, k) + (if KeyOf(es[i]) == k then x - es[i].amount else 0.0)
    decreases |es|
  {
    var es' := es[i := es[i].(amount := x)];
    var n := |es| - 1;
    if i < n {
      assert es'[..n] == es[..n][i := es[i].(amount := x)];
      KeyTotalUpdate(es[..n], i, x, k);
    } else {
      assert es'[..n] == es[..n];
    }
  }

  lemma {:induction false} TotalUpdate(es: seq<Entry>, i: nat, x: real)
    requires i < |es|
    ensures Total(es[i := es[i].(amount := x)]) == Total(es) + x - es[i].amount
    decreases |es|
  {
    var es' := es[i := es[i].(amount := x)];
    var n := |es| - 1;
    if i < n {
      assert es'[..n] == es[..n][i := es[i].(amount := x)];
      TotalUpdate(es[..n], i, x);
    } else {
      assert es'[..n] == es[..n];
    }
  }

  /** The sum of all amounts grows by exactly the new entry's amount. */
  lemma AppendEntryTotal(es: seq<Entry>, e: Entry)
    ensures Total(AppendEntry(es, e)) == Total(es) + e.amount
  {
    match FirstWithKey(es, KeyOf(e))
    case Some(i) =>
      var x := es[i].amount + e.amount;
      var u := es[i := es[i].(amount := x)];
      assert AppendEntry(es, e) == u;
      TotalUpdate(es, i, x);
      assert Total(u) == Total(es) + e.amount;
    case None =>
      var u := es + [e];
      assert AppendEntry(es, e) == u;
      assert u[..|es|] == es;
      assert Total(u) == Total(es) + e.amount;
  }

  /** Per key, the merged amount grows by the new entry's amount on its own
      key and stays put on every other key. */
  lemma AppendEntryKeyTotal(es: seq<Entry>, e: Entry, k: Key)
    ensures KeyTotal(AppendEntry(es, e), k) == KeyTotal(es, k) + (if KeyOf(e) == k then e.amount else 0.0)
  {
    match FirstWithKey(es, KeyOf(e))
    case Some(i) =>
      KeyTotalUpdate(es, i, es[i].amount + e.amount, k);
    case None =>
      KeyTotalAppend(es, e, k);
  }

  /** Merging keeps titles and statuses pairwise distinct. */
  lemma AppendEntryKeepsKeysUnique(es: seq<Entry>, e: Entry)
    requires UniqueKeys(es)
    ensures UniqueKeys(AppendEntry(es, e))
    ensures forall k :: HasKey(AppendEntry(es, e), k) <==> HasKey(es, k) || k == KeyOf(e)
  {
    var r := AppendEntry(es, e);
    match FirstWithKey(es, KeyOf(e))
    case Some(i) =>
      assert forall j :: 0 <= j < |es| ==> KeyOf(r[j]) == KeyOf(es[j]);
    case None =>
      assert forall j :: 0 <= j < |es| ==> r[j] == es[j];
      assert r[|es|] == e;
  }

  /** The loop over a case's grid rows: every row's entry merged in order. */
  function MergeEntries(rows: seq<Entry>): seq<Entry>
  {
    if rows == [] then [] else AppendEntry(MergeEntries(rows[..|rows| - 1]), rows[|rows| - 1])
  }

  /** The merged entries have pairwise distinct keys, and exactly the keys of
      the rows. */
  lemma {:induction false} MergeEntriesKeys(rows: seq<Entry>)
    ensures UniqueKeys(MergeEntries(rows))
    ensures forall k :: HasKey(MergeEntries(rows), k) <==> HasKey(rows, k)
    decreases |rows|
  {
    if rows != [] {
      var front := rows[..|rows| - 1];
      var last := rows[|rows| - 1];
      var merged := MergeEntries(front);
      MergeEntriesKeys(front);
      AppendEntryKeepsKeysUnique(merged, last);
      assert MergeEntries(rows) == AppendEntry(merged, last);
      HasKeyLast(rows);
    }
  }

  /** The keys of a list are those before its last entry and the last's. */
  lemma HasKeyLast(rows: seq<Entry>)
    requires rows != []
    ensures forall k :: HasKey(rows, k) <==> HasKey(rows[..|rows| - 1], k) || k == KeyOf(rows[|rows| - 1])
  {
    var front := rows[..|rows| - 1];
    forall k
      ensures HasKey(rows, k) <==> HasKey(front, k) || k == KeyOf(rows[|rows| - 1])
    {
      if HasKey(rows, k) && k != KeyOf(rows[|rows| - 1]) {
        var j :| 0 <= j < |rows| && KeyOf(rows[j]) == k;
        assert front[j] == rows[j];
      }
      if HasKey(front, k) {
        var j :| 0 <= j < |front| && KeyOf(front[j]) == k;
        assert rows[j] == front[j];
      }
    }
  }

  /** Each key's merged amount is the sum of that key's row amounts. */
  lemma {:induction false} MergeEntriesKeyTotals(rows: seq<Entry>, k: Key)
    ensures KeyTotal(MergeEntries(rows), k) == KeyTotal(rows, k)
    decreases |rows|
  {
    if rows != [] {
      MergeEntriesKeyTotals(rows[..|rows| - 1], k);
      AppendEntryKeyTotal(MergeEntries(rows[..|rows| - 1]), rows[|rows| - 1], k);
    }
  }

  /** Merging loses no money: the merged total is the total of the rows. */
  lemma {:induction false} MergeEntriesTotal(rows: seq<Entry>)
    ensures Total(MergeEntries(rows)) == Total(rows)
    decreases |rows|
  {
    if rows != [] {
      MergeEntriesTotal(rows[..|rows| - 1]);
      AppendEntryTotal(MergeEntries(rows[..|rows| - 1]), rows[|rows| - 1]);
    }
  }

  // ---------------------------------------------------------------------
  // the tree of cases

  /** A node of the client's case tree: its key and its text. */
  datatype Node = Node(key: string, text: string)

  /** `_find_tree_items`: the nodes whose text contains the property number,
      in tree order. */
  function FindTreeItems(nodes: seq<Node>, propertyNumber: string): (r: seq<Node>)
    ensures forall x :: x in r ==> x in nodes && Text.Contains(x.text, propertyNumber)
    ensures forall i :: 0 <= i < |nodes| && Text.Contains(nodes[i].text, propertyNumber) ==> nodes[i] in r
    ensures |r| <= |nodes|
  {
    if nodes == [] then []
    else
      var front := FindTreeItems(nodes[..|nodes| - 1], propertyNumber);
      var last := nodes[|nodes| - 1];
      assert forall i :: 0 <= i < |nodes| - 1 ==> nodes[i] == nodes[..|nodes| - 1][i];
      if Text.Contains(last.text, propertyNumber) then front + [last] else front
  }

  /** The filter keeps tree order: the items found in two runs of nodes are
      the items of the first run followed by those of the second. */
  lemma {:induction false} FindTreeItemsAppend(a: seq<Node>, b: seq<Node>, propertyNumber: string)
    ensures FindTreeItems(a + b, propertyNumber) == FindTreeItems(a, propertyNumber) + FindTreeItems(b, propertyNumber)
    decreases |b|
  {
    if b == [] {
      assert a + b == a;
    } else {
      var ab := a + b;
      var b', last := b[..|b| - 1], b[|b| - 1];
      var tail: seq<Node> := if Text.Contains(last.text, propertyNumber) then [last] else [];
      assert ab[..|ab| - 1] == a + b';
      assert ab[|ab| - 1] == last;
      FindTreeItemsAppend(a, b', propertyNumber);
      assert FindTreeItems(ab, propertyNumber) == FindTreeItems(a + b', propertyNumber) + tail;
      assert FindTreeItems(b, propertyNumber) == FindTreeItems(b', propertyNumber) + tail;
    }
  }

  /** A node is found exactly when the property number occurs somewhere in its
      text as a substring. */
  lemma FindTreeItemsBySubstring(nodes: seq<Node>, propertyNumber: string, i: nat)
    requires i < |nodes|
    ensures nodes[i] in FindTreeItems(nodes, propertyNumber)
        <==> exists p :: Text.OccursAt(nodes[i].text, propertyNumber, p)
  {
    Text.ContainsIffOccurs(nodes[i].text, propertyNumber);
  }

  // ---------------------------------------------------------------------
  // amounts

  datatype AmountError = InvalidNumber

  /** Position of the first `c` in `s`. */
  function IndexOf(s: string, c: char): (i: nat)
    requires c in s
    ensures i < |s| && s[i] == c && c !in s[..i]
  {
    if s[0] == c then 0
    else
      var j := IndexOf(s[1..], c);
      assert s[..j + 1] == [s[0]] + s[1..][..j];
      j + 1
  }

  /** Python's `float(s)` on the decimal strings the amount column holds:
      digits with at most one decimal point and at least one digit. */
  function ParseDecimal(s: string): (r: Result<real, AmountError>)
    ensures r.Ok? ==> r.value >= 0.0
  {
    if '.' !in s then
      if |s| > 0 && AllDigits(s) then Ok(DigitsValue(s) as real) else Err(InvalidNumber)
    else
      var i := IndexOf(s, '.');
      ParsePointed(s[..i], s[i + 1..])
  }

  /** The number with the given digits before and after its first point;
      the rest may not hold another point, and one side may be empty but not
      both. */
  function ParsePointed(whole: string, fraction: string): (r: Result<real, AmountError>)
    ensures r.Ok? ==> r.value >= 0.0
  {
    if AllDigits(whole) && AllDigits(fraction) && |whole| + |fraction| > 0 then
      Ok(DigitsValue(whole) as real + Fraction(fraction))
    else Err(InvalidNumber)
  }

  /** The value of the digits after a decimal point: each digit counts a
      tenth of what the one before it counts. */
  function Fraction(f: string): (r: real)
    requires AllDigits(f)
    ensures 0.0 <= r < 1.0
    decreases |f|
  {
    if f == [] then 0.0
    else (((f[0] as int) - ('0' as int)) as real + Fraction(f[1..])) / 10.0
  }

  /** `x` with its decimal point moved `n` places to the right. */
  function Shifted(x: real, n: nat): real
  {
    if n == 0 then x else 10.0 * Shifted(x, n - 1)
  }

  /** The digits after the point, moved past the point, are worth their
      integer value: the fraction is that value over the matching power of
      ten. */
  lemma {:induction false} FractionValue(f: string)
    requires AllDigits(f)
    ensures Shifted(Fraction(f), |f|) == DigitsValue(f) as real
    decreases |f|
  {
    if f != [] {
      var rest := f[1..];
      var n := |rest|;
      var d := (f[0] as int) - ('0' as int);
      FractionValue(rest);
      FirstDigitValue(f);
      ShiftedTenth(d as real + Fraction(rest), n);
      ShiftedAdd(d as real, Fraction(rest), n);
      ShiftedInt(d, n);
    }
  }

  /** The leading digit of a run counts its value times the power of ten
      of the rest. */
  lemma FirstDigitValue(f: string)
    requires AllDigits(f) && f != []
    ensures DigitsValue(f) == ((f[0] as int) - ('0' as int)) * Pow10(|f| - 1) + DigitsValue(f[1..])
  {
    assert DigitsValue([f[0]]) == (f[0] as int) - ('0' as int) by {
      assert [f[0]][..0] == [];
    }
    DigitsValueAppend([f[0]], f[1..]);
    assert [f[0]] + f[1..] == f;
  }

  lemma {:induction false} ShiftedAdd(x: real, y: real, n: nat)
    ensures Shifted(x + y, n) == Shifted(x, n) + Shifted(y, n)
  {
    if n > 0 {
      ShiftedAdd(x, y, n - 1);
    }
  }

  lemma {:induction false} ShiftedTenth(x: real, n: nat)
    ensures Shifted(x / 10.0, n + 1) == Shifted(x, n)
  {
    if n > 0 {
      ShiftedTenth(x, n - 1);
    }
  }

  lemma {:induction false} ShiftedInt(d: int, n: nat)
    ensures Shifted(d as real, n) == (d * Pow10(n)) as real
  {
    if n > 0 {
      ShiftedInt(d, n - 1);
      TimesTen(d, Pow10(n - 1));
    }
  }

  lemma TimesTen(d: int, p: int)
    ensures d * (10 * p) == 10 * (d * p)
  {
  }

  /** The amount as written once its '.' thousands separators are dropped and
      its ',' decimal comma becomes a point. */
  function Normalised(amount: string): string
  {
    Text.ReplaceAll(Text.RemoveAll(amount, '.'), ',', '.')
  }

  /** `_convert_str_to_float`: drops every '.', turns ',' into the decimal
      point, takes a trailing '-' as the sign, then drops every '-' wherever
      it stands and parses what is left. */
  function ConvertAmount(amount: string): Result<real, AmountError>
  {
    Signed(Normalised(amount))
  }

  /** The second half of the conversion, on the normalised text: the sign
      from a trailing '-', then the number once every '-' is dropped. */
  function Signed(s: string): Result<real, AmountError>
  {
    Negated(Text.EndsWith(s, '-'), ParseDecimal(Text.RemoveAll(s, '-')))
  }

  /** A parsed number, negated when a sign was found; a failure passes
      through. */
  function Negated(negative: bool, r: Result<real, AmountError>): Result<real, AmountError>
  {
    match r
    case Err(e) => Err(e)
    case Ok(v) => Ok(if negative then -v else v)
  }

  /** The conversion succeeds exactly when the unsigned text is a number, and
      the result is negative exactly when the normalised amount ends with '-'
      and is not zero; otherwise it is the unsigned value. */
  lemma ConvertAmountSign(amount: string)
    ensures var r := ConvertAmount(amount);
      var s := Normalised(amount);
      var unsigned := ParseDecimal(Text.RemoveAll(s, '-'));
      && (r.Ok? <==> unsigned.Ok?)
      && (r.Ok? ==> (r.value < 0.0 <==> Text.EndsWith(s, '-') && unsigned.value != 0.0))
      && (r.Ok? ==> r.value == (if Text.EndsWith(s, '-') then -unsigned.value else unsigned.value))
  {
  }

  /** A leading '-' is dropped without effect: only a trailing one makes an
      amount negative. */
  lemma ConvertAmountIgnoresLeadingMinus(amount: string)
    ensures ConvertAmount("-" + amount) == ConvertAmount(amount)
  {
    NormalisedLeadingMinus(amount);
    SignedLeadingMinus(Normalised(amount));
  }

  lemma SignedLeadingMinus(s: string)
    ensures Signed("-" + s) == Signed(s)
  {
    var t := "-" + s;
    Text.RemoveAllAppend("-", s, '-');
    assert Text.RemoveAll("-", '-') == "";
    if s == [] {
      assert Text.RemoveAll(t, '-') == [];
      SignedUnparsed(t);
      SignedUnparsed(s);
    } else {
      assert t[|t| - 1] == s[|s| - 1];
      SignedAgree(t, s);
    }
  }

  /** Two texts with the same unsigned part and the same trailing sign
      convert alike. */
  lemma SignedAgree(s: string, t: string)
    requires Text.RemoveAll(s, '-') == Text.RemoveAll(t, '-')
    requires Text.EndsWith(s, '-') == Text.EndsWith(t, '-')
    ensures Signed(s) == Signed(t)
  {
  }

  /** A text with nothing left once its '-' are dropped does not convert. */
  lemma SignedUnparsed(s: string)
    requires Text.RemoveAll(s, '-') == []
    ensures Signed(s) == Err(InvalidNumber)
  {
    assert ParseDecimal([]) == Err(InvalidNumber);
  }

  /** The sign comes from the trailing '-' alone once the unsigned text has
      parsed. */
  lemma SignedOf(s: string, v: real)
    requires ParseDecimal(Text.RemoveAll(s, '-')) == Ok(v)
    ensures Text.EndsWith(s, '-') ==> Signed(s) == Ok(-v)
    ensures !Text.EndsWith(s, '-') ==> Signed(s) == Ok(v)
  {
    assert Signed(s) == Negated(Text.EndsWith(s, '-'), Ok(v));
    NegatedOk(Text.EndsWith(s, '-'), v);
  }

  lemma NegatedOk(negative: bool, v: real)
    ensures Negated(negative, Ok(v)) == Ok(if negative then -v else v)
  {
  }

  lemma NormalisedLeadingMinus(amount: string)
    ensures Normalised("-" + amount) == "-" + Normalised(amount)
  {
    Text.RemoveAllAppend("-", amount, '.');
    assert Text.RemoveAll("-", '.') == "-";
    var t := Text.RemoveAll(amount, '.');
    Text.ReplaceAllAppend("-", t, ',', '.');
    assert Text.ReplaceAll("-", ',', '.') == "-";
  }

  // The display format of the client, as the partner of the parser.

  /** `n` in decimal with '.' between groups of three digits. */
  function Grouped(n: nat): (s: string)
    ensures |s| > 0
    decreases n
  {
    if n < 1000 then Padded(n, if n < 10 then 1 else if n < 100 then 2 else 3)
    else Grouped(n / 1000) + "." + Padded(n % 1000, 3)
  }

  /** An amount of `cents` hundredths as the client shows it: grouped whole
      part, decimal comma, two decimals, and a trailing '-' when negative. */
  function FormatAmount(cents: int): string
  {
    var a := if cents < 0 then -cents else cents;
    Grouped(a / 100) + "," + Padded(a % 100, 2) + (if cents < 0 then "-" else "")
  }

  lemma {:induction false} GroupedValue(n: nat)
    ensures AllDigits(Text.RemoveAll(Grouped(n), '.'))
    ensures |Text.RemoveAll(Grouped(n), '.')| > 0
    ensures DigitsValue(Text.RemoveAll(Grouped(n), '.')) == n
    decreases n
  {
    if n < 1000 {
      var w := if n < 10 then 1 else if n < 100 then 2 else 3;
      NoPointInDigits(Padded(n, w));
      Text.RemoveAllAbsent(Padded(n, w), '.');
      PaddedValue(n, w);
    } else {
      GroupedValue(n / 1000);
      var g := Text.RemoveAll(Grouped(n / 1000), '.');
      var p := Padded(n % 1000, 3);
      RemovePointsFromGroups(n);
      assert Pow10(3) == 1000;
      PaddedValue(n % 1000, 3);
      DigitsValueAppend(g, p);
      assert DigitsValue(g + p) == (n / 1000) * 1000 + n % 1000;
    }
  }

  /** Dropping the separators of a grouped number of four or more digits
      joins its leading groups and its last three digits. */
  lemma RemovePointsFromGroups(n: nat)
    requires n >= 1000
    ensures Text.RemoveAll(Grouped(n), '.')
         == Text.RemoveAll(Grouped(n / 1000), '.') + Padded(n % 1000, 3)
  {
    var p := Padded(n % 1000, 3);
    NoPointInDigits(p);
    Text.RemoveAllAppend(Grouped(n / 1000) + ".", p, '.');
    Text.RemoveAllAppend(Grouped(n / 1000), ".", '.');
    Text.RemoveAllAbsent(p, '.');
    assert Text.RemoveAll(".", '.') == "";
  }

  lemma NoPointInDigits(s: string)
    requires AllDigits(s)
    ensures '.' !in s && ',' !in s && '-' !in s
  {
  }

  /** Dropping the '.' separators of a displayed amount leaves its bare
      digits, the comma, the decimals and the sign. */
  lemma RemovePointsFromFormat(cents: int)
    ensures var a := if cents < 0 then -cents else cents;
      Text.RemoveAll(FormatAmount(cents), '.')
        == Text.RemoveAll(Grouped(a / 100), '.') + ("," + Padded(a % 100, 2) + (if cents < 0 then "-" else ""))
  {
    var a := if cents < 0 then -cents else cents;
    var rest := "," + Padded(a % 100, 2) + (if cents < 0 then "-" else "");
    NoPointInDigits(Padded(a % 100, 2));
    assert '.' !in rest;
    assert FormatAmount(cents) == Grouped(a / 100) + rest;
    Text.RemoveAllAppend(Grouped(a / 100), rest, '.');
    Text.RemoveAllAbsent(rest, '.');
  }

  /** The one comma of bare digits, comma, decimals and sign becomes a point. */
  lemma CommaToPoint(digits: string, f: string, sign: string)
    requires AllDigits(digits) && AllDigits(f)
    requires sign == "" || sign == "-"
    ensures Text.ReplaceAll(digits + ("," + f + sign), ',', '.') == digits + "." + f + sign
  {
    var t := digits + ("," + f + sign);
    var s := Text.ReplaceAll(t, ',', '.');
    var u := digits + "." + f + sign;
    assert |s| == |u|;
    forall i | 0 <= i < |s| ensures s[i] == u[i] {
      if i < |digits| {
        assert t[i] == digits[i] && u[i] == digits[i];
      } else if i > |digits| {
        assert t[i] == u[i];
      }
    }
  }

  /** Normalising a displayed amount leaves its digits, a decimal point, the
      two decimals and the sign. */
  lemma NormalisedFormat(cents: int)
    ensures var a := if cents < 0 then -cents else cents;
      Normalised(FormatAmount(cents))
        == Text.RemoveAll(Grouped(a / 100), '.') + "." + Padded(a % 100, 2) + (if cents < 0 then "-" else "")
  {
    var a := if cents < 0 then -cents else cents;
    GroupedValue(a / 100);
    RemovePointsFromFormat(cents);
    CommaToPoint(Text.RemoveAll(Grouped(a / 100), '.'), Padded(a % 100, 2), if cents < 0 then "-" else "");
  }

  /** Dropping the '-' signs of a normalised displayed amount. */
  lemma StripSign(digits: string, f: string, sign: string)
    requires AllDigits(digits) && AllDigits(f) && '-' !in digits && '-' !in f
    requires sign == "" || sign == "-"
    ensures Text.RemoveAll(digits + "." + f + sign, '-') == digits + "." + f
  {
    Text.RemoveAllAppend(digits + "." + f, sign, '-');
    assert Text.RemoveAll(sign, '-') == "";
    Text.RemoveAllAppend(digits + ".", f, '-');
    Text.RemoveAllAppend(digits, ".", '-');
    Text.RemoveAllAbsent(digits, '-');
    Text.RemoveAllAbsent(f, '-');
    assert Text.RemoveAll(".", '-') == ".";
  }

  /** The first `c` after a run free of `c` is found right after that run. */
  lemma {:induction false} IndexOfAfter(prefix: string, c: char, rest: string)
    requires c !in prefix
    ensures IndexOf(prefix + [c] + rest, c) == |prefix|
    decreases |prefix|
  {
    var u := prefix + [c] + rest;
    if prefix != [] {
      assert u[1..] == prefix[1..] + [c] + rest;
      assert c !in prefix[1..] by {
        forall i | 0 <= i < |prefix[1..]| ensures prefix[1..][i] != c {
          assert prefix[1..][i] == prefix[i + 1];
        }
      }
      IndexOfAfter(prefix[1..], c, rest);
    }
  }

  /** A text whose first point follows a run of digits splits at that point. */
  lemma SplitAtPoint(whole: string, fraction: string)
    requires AllDigits(whole)
    ensures ParseDecimal(whole + "." + fraction) == ParsePointed(whole, fraction)
  {
    var u := whole + "." + fraction;
    NoPointInDigits(whole);
    assert u == whole + ['.'] + fraction;
    IndexOfAfter(whole, '.', fraction);
    assert u[|whole|] == '.';
    var i := IndexOf(u, '.');
    assert u[..i] == whole;
    assert u[i + 1..] == fraction;
  }

  /** A whole part, a point and a fraction parse to their decimal value. */
  lemma ParseDecimalPoint(whole: string, fraction: string)
    requires AllDigits(whole) && AllDigits(fraction) && |whole| + |fraction| > 0
    ensures ParseDecimal(whole + "." + fraction) == Ok(DigitsValue(whole) as real + Fraction(fraction))
  {
    SplitAtPoint(whole, fraction);
    PointedDigits(whole, fraction);
  }

  /** Digits on both sides of the point give the parsed value. */
  lemma PointedDigits(whole: string, fraction: string)
    requires AllDigits(whole) && AllDigits(fraction) && |whole| + |fraction| > 0
    ensures ParsePointed(whole, fraction) == Ok(DigitsValue(whole) as real + Fraction(fraction))
  {
  }

  /** Digits without a point parse to their value. */
  lemma ParseDecimalDigits(s: string)
    requires |s| > 0 && AllDigits(s)
    ensures ParseDecimal(s) == Ok(DigitsValue(s) as real)
  {
    NoPointInDigits(s);
  }

  /** The texts the parser accepts: a non-empty run of digits, or digits, one
      point and digits with at least one digit in all. */
  predicate DecimalText(s: string)
  {
    || (|s| > 0 && AllDigits(s))
    || exists i :: 0 <= i < |s| && s[i] == '.' && |s| > 1 && AllDigits(s[..i]) && AllDigits(s[i + 1..])
  }

  /** The parser succeeds exactly on decimal texts; `ParseDecimalDigits` and
      `ParseDecimalPoint` give the value of each shape. */
  lemma ParseDecimalAccepts(s: string)
    ensures ParseDecimal(s).Ok? <==> DecimalText(s)
  {
    if '.' in s {
      var p := IndexOf(s, '.');
      assert !AllDigits(s) by {
        assert !IsDigit(s[p]);
      }
      assert ParseDecimal(s) == ParsePointed(s[..p], s[p + 1..]);
      if DecimalText(s) {
        var i :| 0 <= i < |s| && s[i] == '.' && |s| > 1 && AllDigits(s[..i]) && AllDigits(s[i + 1..]);
        assert forall m :: 0 <= m < i ==> s[m] == s[..i][m];
        assert forall m :: 0 <= m < p ==> s[m] == s[..p][m];
        assert i == p;
      } else {
        assert !(AllDigits(s[..p]) && AllDigits(s[p + 1..]) && |s| > 1);
      }
    }
  }

  /** A whole part and two decimals parse to the hundredths they spell. */
  lemma ParseHundredths(whole: string, fraction: string, a: nat)
    requires AllDigits(whole) && AllDigits(fraction) && |whole| > 0 && |fraction| == 2
    requires DigitsValue(whole) == a / 100 && DigitsValue(fraction) == a % 100
    ensures ParseDecimal(whole + "." + fraction) == Ok(a as real / 100.0)
  {
    ParseDecimalPoint(whole, fraction);
    FractionTwoDigits(fraction);
    HundredthsSplit(a);
  }

  /** Two decimals are worth their two-digit value in hundredths. */
  lemma FractionTwoDigits(f: string)
    requires AllDigits(f) && |f| == 2
    ensures Fraction(f) == DigitsValue(f) as real / 100.0
  {
    var d0, d1 := (f[0] as int) - ('0' as int), (f[1] as int) - ('0' as int);
    assert f[1..][1..] == [];
    assert Fraction(f[1..]) == d1 as real / 10.0;
    var h := f[..1];
    assert h[..0] == [];
    assert DigitsValue(h) == d0;
    assert DigitsValue(f) == DigitsValue(h) * 10 + d1;
  }

  /** A number of hundredths is its whole part plus its remainder over 100. */
  lemma HundredthsSplit(a: nat)
    ensures (a / 100) as real + (a % 100) as real / 100.0 == a as real / 100.0
  {
    var w, f := a / 100, a % 100;
    assert a == w * 100 + f;
    assert a as real == w as real * 100.0 + f as real;
  }

  /** Digits, a point, decimals and perhaps a trailing '-' convert to the
      value of the unsigned number, negated when the '-' is there. */
  lemma SignedDecimal(whole: string, fraction: string, negative: bool, q: real)
    requires AllDigits(whole) && AllDigits(fraction) && |fraction| > 0
    requires ParseDecimal(whole + "." + fraction) == Ok(q)
    ensures Signed(whole + "." + fraction + (if negative then "-" else ""))
         == Ok(if negative then -q else q)
  {
    var u := whole + "." + fraction;
    NoPointInDigits(whole);
    NoPointInDigits(fraction);
    StripSign(whole, fraction, if negative then "-" else "");
    if negative {
      assert Text.EndsWith(u + "-", '-');
      SignedOf(u + "-", q);
    } else {
      assert u + "" == u;
      assert u[|u| - 1] == fraction[|fraction| - 1];
      SignedOf(u, q);
    }
  }

  /** Parsing what the client displays gives back the amount: the parser
      inverts the display format for every whole number of hundredths. */
  lemma ConvertFormattedAmount(cents: int)
    ensures ConvertAmount(FormatAmount(cents)) == Ok(cents as real / 100.0)
  {
    if cents < 0 {
      ConvertFormattedNegative(-cents);
    } else {
      ConvertFormattedNonNegative(cents);
    }
  }

  lemma ConvertFormattedNonNegative(a: nat)
    ensures ConvertAmount(FormatAmount(a)) == Ok(a as real / 100.0)
  {
    var whole, fraction := Text.RemoveAll(Grouped(a / 100), '.'), Padded(a % 100, 2);
    FormatParts(a, a);
    ParseHundredths(whole, fraction, a);
    ConvertNormalised(FormatAmount(a), whole, fraction, false, a as real / 100.0);
  }

  lemma ConvertFormattedNegative(a: nat)
    requires a > 0
    ensures ConvertAmount(FormatAmount(-(a as int))) == Ok(-(a as real) / 100.0)
  {
    var cents := -(a as int);
    var whole, fraction := Text.RemoveAll(Grouped(a / 100), '.'), Padded(a % 100, 2);
    FormatParts(cents, a);
    assert Normalised(FormatAmount(cents)) == whole + "." + fraction + "-";
    ParseHundredths(whole, fraction, a);
    var q := a as real / 100.0;
    ConvertNormalised(FormatAmount(cents), whole, fraction, true, q);
    assert -q == -(a as real) / 100.0;
  }

  /** The pieces of a displayed amount once it is normalised: the bare digits
      of the whole part, a point, two decimals and the sign. */
  lemma FormatParts(cents: int, a: nat)
    requires a == if cents < 0 then -cents else cents
    ensures var whole := Text.RemoveAll(Grouped(a / 100), '.');
      && AllDigits(whole) && |whole| > 0 && DigitsValue(whole) == a / 100
    ensures AllDigits(Padded(a % 100, 2)) && |Padded(a % 100, 2)| == 2
      && DigitsValue(Padded(a % 100, 2)) == a % 100
    ensures Normalised(FormatAmount(cents))
         == Text.RemoveAll(Grouped(a / 100), '.') + "." + Padded(a % 100, 2) + (if cents < 0 then "-" else "")
  {
    GroupedValue(a / 100);
    PaddedValue(a % 100, 2);
    NormalisedFormat(cents);
  }

  /** An amount that normalises to digits, a point, decimals and perhaps a
      trailing '-' converts to the unsigned number, negated when the '-' is
      there. */
  lemma ConvertNormalised(amount: string, whole: string, fraction: string, negative: bool, q: real)
    requires AllDigits(whole) && AllDigits(fraction) && |fraction| > 0
    requires ParseDecimal(whole + "." + fraction) == Ok(q)
    requires Normalised(amount) == whole + "." + fraction + (if negative then "-" else "")
    ensures ConvertAmount(amount) == Ok(if negative then -q else q)
  {
    SignedDecimal(whole, fraction, negative, q);
  }

  /** How the client displays -1234.56. */
  lemma FormatAmountExample()
    ensures FormatAmount(-123456) == "1.234,56-"
  {
    GroupedExample();
    PaddedExample();
    assert 123456 / 100 == 1234 && 123456 % 100 == 56;
  }

  lemma GroupedExample()
    ensures Grouped(1234) == "1.234"
  {
    assert DigitChar(1) == '1' && DigitChar(2) == '2' && DigitChar(3) == '3' && DigitChar(4) == '4';
    assert Padded(1, 1) == Padded(0, 0) + [DigitChar(1)] == "1";
    assert Padded(2, 1) == "2";
    assert Padded(23, 2) == Padded(2, 1) + [DigitChar(3)] == "23";
    assert Padded(234, 3) == Padded(23, 2) + [DigitChar(4)] == "234";
    assert Grouped(1) == "1";
    assert 1234 / 1000 == 1 && 1234 % 1000 == 234;
  }

  lemma PaddedExample()
    ensures Padded(56, 2) == "56"
  {
    assert DigitChar(5) == '5' && DigitChar(6) == '6';
    assert Padded(5, 1) == Padded(0, 0) + [DigitChar(5)] == "5";
  }

  /** The example from the parser's own documentation. */
  lemma ConvertAmountExample()
    ensures ConvertAmount("1.234,56-") == Ok(-1234.56)
  {
    FormatAmountExample();
    ConvertFormattedAmount(-123456);
  }

  // ---------------------------------------------------------------------
  // building a person's cases

  /** The cells of one grid row the robot reads: status tooltip, text and
      amount string. */
  datatype GridRow = GridRow(status: string, text: string, amount: string)

  /** The entries of the grid rows, each amount converted by `convert`;
      the first amount that does not convert fails the whole case. The
      robot's converter is `ConvertAmount`, which `PropertyDebt` passes in;
      keeping it a parameter here lets the bookkeeping below be reasoned
      about without unfolding the parser. */
  function ParseRows(rows: seq<GridRow>, convert: string -> Result<real, AmountError>): (r: Result<seq<Entry>, AmountError>)
    ensures r.Ok? ==>
              && |r.value| == |rows|
              && forall i :: 0 <= i < |rows| ==> KeyOf(r.value[i]) == Key(rows[i].text, rows[i].status)
  {
    if rows == [] then Ok([])
    else
      match ParseRows(rows[..|rows| - 1], convert)
      case Err(e) => Err(e)
      case Ok(front) =>
        var last := rows[|rows| - 1];
        assert forall i :: 0 <= i < |rows| - 1 ==> rows[i] == rows[..|rows| - 1][i];
        match convert(last.amount)
        case Err(e) => Err(e)
        case Ok(v) => Ok(front + [Entry(last.text, last.status, v)])
  }

  /** Each entry carries its row's converted amount, and the rows fail
      exactly when some row's amount does not convert. */
  lemma {:induction false} ParseRowsAmounts(rows: seq<GridRow>, convert: string -> Result<real, AmountError>)
    ensures ParseRows(rows, convert).Ok? ==>
      forall i :: 0 <= i < |rows| ==> convert(rows[i].amount) == Ok(ParseRows(rows, convert).value[i].amount)
    ensures ParseRows(rows, convert).Err? <==> exists i :: 0 <= i < |rows| && convert(rows[i].amount).Err?
    decreases |rows|
  {
    if rows != [] {
      var front := rows[..|rows| - 1];
      var last := rows[|rows| - 1];
      ParseRowsAmounts(front, convert);
      assert forall i :: 0 <= i < |front| ==> rows[i] == front[i];
      if ParseRows(front, convert).Ok? && convert(last.amount).Ok? {
        var es := ParseRows(front, convert).value + [Entry(last.text, last.status, convert(last.amount).value)];
        assert ParseRows(rows, convert) == Ok(es);
        assert forall i :: 0 <= i < |front| ==> es[i] == ParseRows(front, convert).value[i];
      }
    }
  }

  /** The case of one tree node: the grid's rows except the last are merged
      into the case's entries (`range(RowCount - 1)`). */
  function BuildCase(title: string, grid: seq<GridRow>, convert: string -> Result<real, AmountError>): (r: Result<Case, AmountError>)
    ensures r.Ok? ==> r.value.title == title && UniqueKeys(r.value.entries)
  {
    match ParseRows(GridBody(grid), convert)
    case Err(e) => Err(e)
    case Ok(entries) =>
      MergeEntriesKeys(entries);
      Ok(Case(title, MergeEntries(entries)))
  }

  /** The grid's rows without its last one, the totals row. */
  function GridBody(grid: seq<GridRow>): (rows: seq<GridRow>)
    ensures |rows| == if |grid| == 0 then 0 else |grid| - 1
    ensures forall i :: 0 <= i < |rows| ==> rows[i] == grid[i]
  {
    if |grid| == 0 then [] else grid[..|grid| - 1]
  }

  /** A built case has one entry per distinct title and status among the
      grid's rows, the totals row excepted. */
  lemma BuildCaseKeys(title: string, grid: seq<GridRow>, convert: string -> Result<real, AmountError>)
    requires BuildCase(title, grid, convert).Ok?
    ensures forall k :: HasKey(BuildCase(title, grid, convert).value.entries, k) <==>
      exists i :: 0 <= i < |grid| - 1 && k == Key(grid[i].text, grid[i].status)
  {
    var rows := GridBody(grid);
    var entries := ParseRows(rows, convert).value;
    MergeEntriesKeys(entries);
    assert BuildCase(title, grid, convert).value.entries == MergeEntries(entries);
    forall k
      ensures HasKey(entries, k) <==> exists i :: 0 <= i < |grid| - 1 && k == Key(grid[i].text, grid[i].status)
    {
      if HasKey(entries, k) {
        var j :| 0 <= j < |entries| && KeyOf(entries[j]) == k;
        assert k == Key(grid[j].text, grid[j].status);
      }
      if exists i :: 0 <= i < |grid| - 1 && k == Key(grid[i].text, grid[i].status) {
        var i :| 0 <= i < |grid| - 1 && k == Key(grid[i].text, grid[i].status);
        assert KeyOf(entries[i]) == k;
      }
    }
  }

  /** Every amount in the grid's body converts. */
  predicate Converts(grid: seq<GridRow>, convert: string -> Result<real, AmountError>)
  {
    forall j :: 0 <= j < |grid| - 1 ==> convert(grid[j].amount).Ok?
  }

  /** The sum of the converted amounts of the rows with key `k`; amounts that
      do not convert count nothing. */
  function ConvertedTotal(rows: seq<GridRow>, k: Key, convert: string -> Result<real, AmountError>): real
  {
    if rows == [] then 0.0
    else
      var last := rows[|rows| - 1];
      ConvertedTotal(rows[..|rows| - 1], k, convert)
        + (if Key(last.text, last.status) == k && convert(last.amount).Ok? then convert(last.amount).value else 0.0)
  }

  /** Parsed rows sum per key to the converted amounts of the rows. */
  lemma {:induction false} ParseRowsKeyTotal(rows: seq<GridRow>, k: Key, convert: string -> Result<real, AmountError>)
    requires ParseRows(rows, convert).Ok?
    ensures KeyTotal(ParseRows(rows, convert).value, k) == ConvertedTotal(rows, k, convert)
    decreases |rows|
  {
    if rows != [] {
      var last := rows[|rows| - 1];
      var front := ParseRows(rows[..|rows| - 1], convert).value;
      ParseRowsKeyTotal(rows[..|rows| - 1], k, convert);
      var e := Entry(last.text, last.status, convert(last.amount).value);
      assert ParseRows(rows, convert).value == front + [e];
      KeyTotalAppend(front, e, k);
    }
  }

  /** A key nobody carries sums to nothing. */
  lemma {:induction false} KeyTotalAbsent(es: seq<Entry>, k: Key)
    requires !HasKey(es, k)
    ensures KeyTotal(es, k) == 0.0
    decreases |es|
  {
    if es != [] {
      var front := es[..|es| - 1];
      forall m | 0 <= m < |front| ensures KeyOf(front[m]) != k {
        assert front[m] == es[m];
      }
      KeyTotalAbsent(front, k);
    }
  }

  /** With unique keys, the sum of an entry's key is that entry's amount. */
  lemma {:induction false} KeyTotalOfUnique(es: seq<Entry>, j: nat)
    requires UniqueKeys(es) && j < |es|
    ensures KeyTotal(es, KeyOf(es[j])) == es[j].amount
    decreases |es|
  {
    var n := |es| - 1;
    var front := es[..n];
    assert UniqueKeys(front) by {
      forall a, b | 0 <= a < b < |front| ensures KeyOf(front[a]) != KeyOf(front[b]) {
        assert front[a] == es[a] && front[b] == es[b];
      }
    }
    if j == n {
      forall m | 0 <= m < |front| ensures KeyOf(front[m]) != KeyOf(es[j]) {
        assert front[m] == es[m];
      }
      KeyTotalAbsent(front, KeyOf(es[j]));
    } else {
      assert front[j] == es[j];
      KeyTotalOfUnique(front, j);
    }
  }

  /** What a case means: it is built exactly when every amount in the grid's
      body converts, and then each entry holds the sum of the converted
      amounts of the body rows with its title and status. */
  lemma BuildCaseAmounts(title: string, grid: seq<GridRow>, convert: string -> Result<real, AmountError>)
    ensures BuildCase(title, grid, convert).Ok? <==> Converts(grid, convert)
    ensures BuildCase(title, grid, convert).Ok? ==>
      var es := BuildCase(title, grid, convert).value.entries;
      forall j :: 0 <= j < |es| ==> es[j].amount == ConvertedTotal(GridBody(grid), KeyOf(es[j]), convert)
  {
    var rows := GridBody(grid);
    ParseRowsAmounts(rows, convert);
    if ParseRows(rows, convert).Ok? {
      var entries := ParseRows(rows, convert).value;
      var merged := MergeEntries(entries);
      MergeEntriesKeys(entries);
      assert BuildCase(title, grid, convert) == Ok(Case(title, merged));
      forall j | 0 <= j < |merged|
        ensures merged[j].amount == ConvertedTotal(rows, KeyOf(merged[j]), convert)
      {
        KeyTotalOfUnique(merged, j);
        MergeEntriesKeyTotals(entries, KeyOf(merged[j]));
        ParseRowsKeyTotal(rows, KeyOf(merged[j]), convert);
      }
    }
  }

  /** The cases are the nodes' cases one by one, and there are cases exactly
      when every node's case is built. */
  lemma BuildCasesEach(items: seq<Node>, gridOf: string -> seq<GridRow>,
                       convert: string -> Result<real, AmountError>)
    ensures BuildCases(items, gridOf, convert).Ok? <==>
      forall i :: 0 <= i < |items| ==> BuildCase(items[i].text, gridOf(items[i].key), convert).Ok?
    ensures BuildCases(items, gridOf, convert).Ok? ==>
      forall i :: 0 <= i < |items| ==>
        BuildCase(items[i].text, gridOf(items[i].key), convert) == Ok(BuildCases(items, gridOf, convert).value[i])
  {
    var rs := seq(|items|, i requires 0 <= i < |items| => BuildCase(items[i].text, gridOf(items[i].key), convert));
    assert forall i :: 0 <= i < |items| ==> rs[i] == BuildCase(items[i].text, gridOf(items[i].key), convert);
  }

  /** Case building for a list of nodes: it fails exactly when some node's
      grid holds an amount that does not convert, and case `i` is the case
      built from node `i`. */
  /** Every amount in the grid of every node converts. */
  predicate AllConvert(items: seq<Node>, gridOf: string -> seq<GridRow>,
                       convert: string -> Result<real, AmountError>)
  {
    forall i :: 0 <= i < |items| ==> Converts(gridOf(items[i].key), convert)
  }

  lemma BuildCasesConverts(items: seq<Node>, gridOf: string -> seq<GridRow>,
                           convert: string -> Result<real, AmountError>)
    ensures BuildCases(items, gridOf, convert).Ok? <==> AllConvert(items, gridOf, convert)
    ensures BuildCases(items, gridOf, convert).Ok? ==>
      forall i :: 0 <= i < |items| ==>
        BuildCase(items[i].text, gridOf(items[i].key), convert) == Ok(BuildCases(items, gridOf, convert).value[i])
  {
    BuildCasesEach(items, gridOf, convert);
    forall i | 0 <= i < |items|
      ensures BuildCase(items[i].text, gridOf(items[i].key), convert).Ok?
          <==> Converts(gridOf(items[i].key), convert)
    {
      BuildCaseAmounts(items[i].text, gridOf(items[i].key), convert);
    }
  }

  /** `get_property_debt` fails for a person in the client exactly when some
      found node's grid holds an amount that does not convert. */
  lemma PropertyDebtConverts(cpr: string, name: string, propertyNumber: string,
                             nodes: seq<Node>, gridOf: string -> seq<GridRow>)
    ensures PropertyDebt(cpr, name, propertyNumber, Some(nodes), gridOf).Ok? <==>
      AllConvert(FindTreeItems(nodes, propertyNumber), gridOf, ConvertAmount)
  {
    var items := FindTreeItems(nodes, propertyNumber);
    var debt := PropertyDebt(cpr, name, propertyNumber, Some(nodes), gridOf);
    var built := BuildCases(items, gridOf, ConvertAmount);
    assert debt.Ok? == built.Ok?;
    BuildCasesConverts(items, gridOf, ConvertAmount);
  }

  /** When `get_property_debt` succeeds for a person in the client, case `i`
      is the case built from found node `i`. */
  lemma PropertyDebtCases(cpr: string, name: string, propertyNumber: string,
                          nodes: seq<Node>, gridOf: string -> seq<GridRow>)
    ensures PropertyDebt(cpr, name, propertyNumber, Some(nodes), gridOf).Ok? ==>
      var items := FindTreeItems(nodes, propertyNumber);
      var cases := PropertyDebt(cpr, name, propertyNumber, Some(nodes), gridOf).value.cases;
      |cases| == |items| && forall i :: 0 <= i < |items| ==>
        BuildCase(items[i].text, gridOf(items[i].key), ConvertAmount) == Ok(cases[i])
  {
    var items := FindTreeItems(nodes, propertyNumber);
    var built := BuildCases(items, gridOf, ConvertAmount);
    if built.Ok? {
      BuildCasesEach(items, gridOf, ConvertAmount);
      var cases := PropertyDebt(cpr, name, propertyNumber, Some(nodes), gridOf).value.cases;
      assert cases == built.value;
      assert |cases| == |items|;
      forall i | 0 <= i < |items|
        ensures BuildCase(items[i].text, gridOf(items[i].key), ConvertAmount) == Ok(cases[i])
      {
        assert BuildCase(items[i].text, gridOf(items[i].key), ConvertAmount) == Ok(built.value[i]);
      }
    }
  }

  /** `get_property_debt`: no cases when the person has no tree; otherwise one
      case per tree node whose text holds the property number, in tree order,
      each amount converted by `ConvertAmount`. */
  function PropertyDebt(cpr: string, name: string, propertyNumber: string,
                        tree: Option<seq<Node>>, gridOf: string -> seq<GridRow>): (r: Result<Person, AmountError>)
    ensures r.Ok? ==> r.value.cpr == cpr && r.value.name == name
    ensures tree.None? ==> r == Ok(Person(name, cpr, []))
    ensures r.Ok? && tree.Some? ==>
      var items := FindTreeItems(tree.value, propertyNumber);
      && |r.value.cases| == |items|
      && forall i :: 0 <= i < |items| ==>
           r.value.cases[i].title == items[i].text && UniqueKeys(r.value.cases[i].entries)
  {
    match tree
    case None => Ok(Person(name, cpr, []))
    case Some(nodes) =>
      match BuildCases(FindTreeItems(nodes, propertyNumber), gridOf, ConvertAmount)
      case Err(e) => Err(e)
      case Ok(cases) => Ok(Person(name, cpr, cases))
  }

  /** The values of a run of results in order, or the first failure among
      them. */
  function Collect(rs: seq<Result<Case, AmountError>>): (r: Result<seq<Case>, AmountError>)
    ensures r.Ok? <==> forall i :: 0 <= i < |rs| ==> rs[i].Ok?
    ensures r.Ok? ==> |r.value| == |rs| && forall i :: 0 <= i < |rs| ==> rs[i] == Ok(r.value[i])
    ensures r.Err? ==> exists i :: 0 <= i < |rs| && rs[i] == Err(r.error)
  {
    if rs == [] then Ok([])
    else
      var front := rs[..|rs| - 1];
      assert forall i :: 0 <= i < |front| ==> rs[i] == front[i];
      match Collect(front)
      case Err(e) => Err(e)
      case Ok(cs) =>
        match rs[|rs| - 1]
        case Err(e) => Err(e)
        case Ok(c) =>
          assert forall i :: 0 <= i < |cs| ==> (cs + [c])[i] == cs[i];
          Ok(cs + [c])
  }

  /** One case per node, in order; the first case that fails fails them all. */
  function BuildCases(items: seq<Node>, gridOf: string -> seq<GridRow>,
                      convert: string -> Result<real, AmountError>): (r: Result<seq<Case>, AmountError>)
    ensures r.Ok? ==>
              && |r.value| == |items|
              && forall i :: 0 <= i < |items| ==>
                   r.value[i].title == items[i].text && UniqueKeys(r.value[i].entries)
  {
    var rs := seq(|items|, i requires 0 <= i < |items| => BuildCase(items[i].text, gridOf(items[i].key), convert));
    assert forall i :: 0 <= i < |items| ==> rs[i] == BuildCase(items[i].text, gridOf(items[i].key), convert);
    Collect(rs)
  }
}

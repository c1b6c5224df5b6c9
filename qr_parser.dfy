/**
 * The IMOU QR text parser (`parse_qr_data`): a payload shaped like
 * `{SN:xxx,SC:yyy,PID:zzz}` becomes a record of serial number, security code
 * and product ID, or nothing at all.
 */
module QrParser {
  import opened Wrappers
  import opened Text

  /** The three identifiers read off an IMOU label. */
  datatype QrData = QrData(sn: string, sc: string, pid: string)

  /** The characters `qr_string.strip('{}')` removes from both ends. */
  const Braces: set<char> := {'{', '}'}

  /** The comma-separated items inside the braces. */
  function Items(qr: string): seq<string>
  {
    Split(StripChars(qr, Braces), ',')
  }

  /** One item as a trimmed (key, value) pair; `None` when the item has no
      `:` and unpacking `item.split(':', 1)` raises. */
  function Entry(item: string): Option<(string, string)>
  {
    match SplitFirst(item, ':')
    case None => None
    case Some(kv) => Some((Strip(kv.0), Strip(kv.1)))
  }

  predicate HasKey(item: string, k: string)
  {
    Entry(item).Some? && Entry(item).value.0 == k
  }

  /** One turn of the loop: `data_dict[key.strip()] = value.strip()`, or the
      exception that ends the parse. */
  function AddEntry(dict: Option<map<string, string>>, entry: Option<(string, string)>): Option<map<string, string>>
  {
    if dict.None? || entry.None? then None else Some(dict.value[entry.value.0 := entry.value.1])
  }

  /** The dictionary the loop fills, item by item, a later key overwriting an
      earlier one; `None` once an item raises. */
  function BuildDict(items: seq<string>): Option<map<string, string>>
    decreases |items|
  {
    if items == [] then Some(map[])
    else AddEntry(BuildDict(items[..|items| - 1]), Entry(items[|items| - 1]))
  }

  /** What `parse_qr_data` returns: `None` for fewer than three items, for an
      item without `:`, or when one of `SN`, `SC`, `PID` is missing. */
  function ParseQr(qr: string): Option<QrData>
  {
    var items := Items(qr);
    var dict := BuildDict(items);
    if |items| < 3 || dict.None? then None
    else if "SN" in dict.value && "SC" in dict.value && "PID" in dict.value then
      Some(QrData(dict.value["SN"], dict.value["SC"], dict.value["PID"]))
    else None
  }

  /** `parse_qr_data` as the source runs it: a loop over the items that fills
      the dictionary and gives up on the first item without `:`. */
  method ParseQrData(qr: string) returns (r: Option<QrData>)
    ensures r == ParseQr(qr)
  {
    var items := Items(qr);
    ParseQrUnfold(qr);
    if |items| < 3 {
      return None;
    }
    var dict: map<string, string> := map[];
    for i := 0 to |items|
      invariant BuildDict(items[..i]) == Some(dict)
    {
      var entry := Entry(items[i]);
      BuildDictStep(items, i);
      if entry.None? {
        BuildDictFails(items, i);
        return None;
      }
      dict := dict[entry.value.0 := entry.value.1];
    }
    assert items[..|items|] == items;
    if "SN" in dict && "SC" in dict && "PID" in dict {
      r := Some(QrData(dict["SN"], dict["SC"], dict["PID"]));
    } else {
      r := None;
    }
  }

  /** A proof aid only: `ParseQr` with its local definitions written out, so
      that the loop in `ParseQrData` can be matched against it. */
  lemma ParseQrUnfold(qr: string)
    ensures ParseQr(qr) ==
              if |Items(qr)| < 3 || BuildDict(Items(qr)).None? then None
              else
                var d := BuildDict(Items(qr)).value;
                if "SN" in d && "SC" in d && "PID" in d then Some(QrData(d["SN"], d["SC"], d["PID"])) else None
  {
  }

  /** One more item: its entry is added, or the whole build fails. */
  lemma BuildDictStep(items: seq<string>, i: nat)
    requires i < |items|
    ensures BuildDict(items[..i + 1]) == AddEntry(BuildDict(items[..i]), Entry(items[i]))
  {
    assert items[..i + 1][..i] == items[..i];
  }

  /** Once an item raises, the build of any longer list fails too. */
  lemma {:induction false} BuildDictFails(items: seq<string>, i: nat)
    requires i < |items| && Entry(items[i]).None?
    ensures BuildDict(items).None?
    decreases |items|
  {
    if i < |items| - 1 {
      BuildDictFails(items[..|items| - 1], i);
    }
  }

  /** An item raises exactly when it has no `:`. */
  lemma EntryFails(item: string)
    ensures Entry(item).None? <==> ':' !in item
  {
    SplitFirstSpec(item, ':');
  }

  /** The dictionary exists exactly when every item has a `:`. */
  lemma {:induction false} BuildDictSucceedsIff(items: seq<string>)
    ensures BuildDict(items).Some? <==> forall i | 0 <= i < |items| :: ':' in items[i]
    decreases |items|
  {
    if items != [] {
      var n := |items| - 1;
      BuildDictSucceedsIff(items[..n]);
      EntryFails(items[n]);
      assert forall i | 0 <= i < n :: items[..n][i] == items[i];
    }
  }

  /** The keys of the dictionary are exactly the trimmed keys of the items. */
  lemma {:induction false} BuildDictKeys(items: seq<string>)
    requires BuildDict(items).Some?
    ensures forall k :: k in BuildDict(items).value <==> exists i | 0 <= i < |items| :: HasKey(items[i], k)
    decreases |items|
  {
    if items != [] {
      var n := |items| - 1;
      var init := items[..n];
      BuildDictKeys(init);
      assert forall i | 0 <= i < n :: init[i] == items[i];
      assert HasKey(items[n], Entry(items[n]).value.0);
    }
  }

  /** Item `i` is the last one whose trimmed key is `k`. */
  predicate IsLastWithKey(items: seq<string>, i: int, k: string)
  {
    && 0 <= i < |items|
    && HasKey(items[i], k)
    && forall j | i < j < |items| :: !HasKey(items[j], k)
  }

  /** An item without key `k` after the last `k` keeps it the last. */
  lemma LastWithKeyExtend(items: seq<string>, i: int, k: string)
    requires |items| > 0 && IsLastWithKey(items[..|items| - 1], i, k)
    requires !HasKey(items[|items| - 1], k)
    ensures IsLastWithKey(items, i, k)
  {
    var n := |items| - 1;
    assert forall j | 0 <= j < n :: items[..n][j] == items[j];
  }

  /** Each key of the dictionary holds the trimmed value of the last item
      with that key: a repeated key keeps its last value. */
  lemma {:induction false} BuildDictLastWins(items: seq<string>, k: string)
    requires BuildDict(items).Some? && k in BuildDict(items).value
    ensures exists i :: IsLastWithKey(items, i, k) && BuildDict(items).value[k] == Entry(items[i]).value.1
    decreases |items|
  {
    var n := |items| - 1;
    var init := items[..n];
    var d := BuildDict(init).value;
    var kv := Entry(items[n]).value;
    assert BuildDict(items).value == d[kv.0 := kv.1];
    if k == kv.0 {
      assert IsLastWithKey(items, n, k);
    } else {
      BuildDictLastWins(init, k);
      var i :| IsLastWithKey(init, i, k) && d[k] == Entry(init[i]).value.1;
      LastWithKeyExtend(items, i, k);
      assert init[i] == items[i];
    }
  }

  /** `parse_qr_data` returns a record exactly when there are at least three
      items, every item has a `:`, and `SN`, `SC` and `PID` all occur as
      trimmed keys. */
  lemma ParseQrSucceedsIff(qr: string)
    ensures ParseQr(qr).Some? <==>
              && |Items(qr)| >= 3
              && (forall i | 0 <= i < |Items(qr)| :: ':' in Items(qr)[i])
              && (exists i | 0 <= i < |Items(qr)| :: HasKey(Items(qr)[i], "SN"))
              && (exists i | 0 <= i < |Items(qr)| :: HasKey(Items(qr)[i], "SC"))
              && (exists i | 0 <= i < |Items(qr)| :: HasKey(Items(qr)[i], "PID"))
  {
    var items := Items(qr);
    BuildDictSucceedsIff(items);
    if BuildDict(items).Some? {
      BuildDictKeys(items);
    }
  }

  /** Each field of a parsed record is the trimmed value of the LAST item
      carrying its key; other keys play no part. */
  lemma ParseQrLastWins(qr: string)
    requires ParseQr(qr).Some?
    ensures exists i :: IsLastWithKey(Items(qr), i, "SN") && ParseQr(qr).value.sn == Entry(Items(qr)[i]).value.1
    ensures exists i :: IsLastWithKey(Items(qr), i, "SC") && ParseQr(qr).value.sc == Entry(Items(qr)[i]).value.1
    ensures exists i :: IsLastWithKey(Items(qr), i, "PID") && ParseQr(qr).value.pid == Entry(Items(qr)[i]).value.1
  {
    var items := Items(qr);
    BuildDictLastWins(items, "SN");
    BuildDictLastWins(items, "SC");
    BuildDictLastWins(items, "PID");
  }

  /** The braces around the canonical label text are removed and nothing
      else. */
  lemma StripBracesCanonical(body: string)
    requires |body| > 0 && body[0] !in Braces && body[|body| - 1] !in Braces
    ensures StripChars(['{'] + body + ['}'], Braces) == body
  {
    var qr := ['{'] + body + ['}'];
    var tail := body + ['}'];
    assert qr[1..] == tail;
    assert TrimStart(tail, Braces) == tail;
    assert TrimStart(qr, Braces) == tail;
    assert tail[..|body|] == body;
    assert TrimEnd(body, Braces) == body;
    assert TrimEnd(tail, Braces) == body;
  }

  /** The canonical label text splits into its three items. */
  lemma ItemsCanonical(x: string, y: string, z: string)
    requires ',' !in x && ',' !in y && ',' !in z
    requires |x| > 0 && x[0] !in Braces && |z| > 0 && z[|z| - 1] !in Braces
    ensures Items(['{'] + x + [','] + y + [','] + z + ['}']) == [x, y, z]
  {
    var qr := ['{'] + x + [','] + y + [','] + z + ['}'];
    var rest := y + [','] + z;
    var body := x + [','] + rest;
    calc {
      Items(qr);
      { assert qr == ['{'] + body + ['}']; StripBracesCanonical(body); }
      Split(body, ',');
      { SplitAfterPiece(x, ',', rest); }
      [x] + Split(rest, ',');
      { SplitAfterPiece(y, ',', z); }
      [x] + ([y] + Split(z, ','));
      { SplitAfterPiece(z, ',', []); }
      [x, y, z];
    }
  }

  /** A key free of whitespace and `:` followed by `:` and a value gives the
      entry (key, trimmed value). */
  lemma EntryOfKey(key: string, v: string)
    requires |key| > 0 && ':' !in key && key[0] !in Whitespace && key[|key| - 1] !in Whitespace
    ensures Entry(key + [':'] + v) == Some((key, Strip(v)))
  {
    SplitFirstAt(key, ':', v);
    StripCharsFixed(key, Whitespace);
  }

  /** Three items with keys `SN`, `SC`, `PID` build the dictionary of their
      values. */
  lemma BuildDictThree(x: string, y: string, z: string, a: string, b: string, c: string)
    requires Entry(x) == Some(("SN", a)) && Entry(y) == Some(("SC", b)) && Entry(z) == Some(("PID", c))
    ensures BuildDict([x, y, z]) == Some(map["SN" := a, "SC" := b, "PID" := c])
  {
    assert [x, y, z][..2] == [x, y] && [x, y][..1] == [x] && [x][..0] == [];
    assert BuildDict([x]) == Some(map["SN" := a]);
    assert BuildDict([x, y]) == Some(map["SN" := a, "SC" := b]);
  }

  /** Three items with the keys `SN`, `SC`, `PID` parse to their values. */
  lemma ParseQrThreeItems(qr: string, a: string, b: string, c: string)
    requires |Items(qr)| == 3
    requires Entry(Items(qr)[0]) == Some(("SN", a))
    requires Entry(Items(qr)[1]) == Some(("SC", b))
    requires Entry(Items(qr)[2]) == Some(("PID", c))
    ensures ParseQr(qr) == Some(QrData(a, b, c))
  {
    var items := Items(qr);
    assert items == [items[0], items[1], items[2]];
    BuildDictThree(items[0], items[1], items[2], a, b, c);
    ParseQrUnfold(qr);
  }

  /** The canonical label text `{SN:a,SC:b,PID:c}`. */
  function CanonicalText(a: string, b: string, c: string): string
  {
    "{SN:" + a + ",SC:" + b + ",PID:" + c + "}"
  }

  lemma CanonicalItems(a: string, b: string, c: string)
    requires ',' !in a && ',' !in b && ',' !in c
    requires c == [] || c[|c| - 1] !in Braces
    ensures Items(CanonicalText(a, b, c)) == ["SN:" + a, "SC:" + b, "PID:" + c]
  {
    var x, y, z := "SN:" + a, "SC:" + b, "PID:" + c;
    assert CanonicalText(a, b, c) == ['{'] + x + [','] + y + [','] + z + ['}'];
    assert z[|z| - 1] == if c == [] then ':' else c[|c| - 1];
    ItemsCanonical(x, y, z);
  }

  lemma CanonicalEntries(a: string, b: string, c: string)
    ensures Entry("SN:" + a) == Some(("SN", Strip(a)))
    ensures Entry("SC:" + b) == Some(("SC", Strip(b)))
    ensures Entry("PID:" + c) == Some(("PID", Strip(c)))
  {
    assert "SN:" + a == "SN" + [':'] + a;
    assert "SC:" + b == "SC" + [':'] + b;
    assert "PID:" + c == "PID" + [':'] + c;
    EntryOfKey("SN", a);
    EntryOfKey("SC", b);
    EntryOfKey("PID", c);
  }

  /** The canonical label text parses to the trimmed values, whatever `:` the
      values contain, as long as they hold no `,` and the last one does not
      end in a brace. */
  lemma ParseQrCanonical(a: string, b: string, c: string)
    requires ',' !in a && ',' !in b && ',' !in c
    requires c == [] || c[|c| - 1] !in Braces
    ensures ParseQr(CanonicalText(a, b, c)) == Some(QrData(Strip(a), Strip(b), Strip(c)))
  {
    CanonicalItems(a, b, c);
    CanonicalEntries(a, b, c);
    ParseQrThreeItems(CanonicalText(a, b, c), Strip(a), Strip(b), Strip(c));
  }
}

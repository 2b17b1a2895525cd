/**
 * The data the HTML report embeds: `serializeToJson` turns the test records
 * into the JSON array `DATA`, `serializeMapToJson` turns a name map into a
 * JSON object.  Each comes with a reader for exactly the text it writes, and
 * reading back what was written gives the input.
 */
module ReportJson {
  import opened Wrappers
  import opened Text
  import opened Escaping

  /** One new test as the report shows it: who added it, where, when, and for which system. */
  datatype TestRecord = TestRecord(
    authorEmail: string,
    functionName: string,
    filePath: string,
    date: string,
    systemId: Option<string>)

  /** A value as a JSON string literal: escaped, between double quotes. */
  function Quoted(v: string): string {
    "\"" + EscapeJson(v) + "\""
  }

  /** `"key":"value"`. */
  function Field(key: string, v: string): string {
    "\"" + key + "\":" + Quoted(v)
  }

  /** `"system":"id"`, or `"system":null` when there is no system. */
  function SystemField(systemId: Option<string>): string {
    "\"system\":" + match systemId
      case Some(id) => Quoted(id)
      case None => "null"
  }

  /** The system field is the bare literal `null` exactly when there is no system, else the id escaped and quoted. */
  lemma SystemFieldShape(systemId: Option<string>)
    ensures SystemField(systemId) == "\"system\":null" <==> systemId.None?
    ensures systemId.Some? ==> SystemField(systemId) == "\"system\":" + Quoted(systemId.value)
  {
    if systemId.Some? {
      var t := SystemField(systemId);
      assert t[9] == '"';
      assert "\"system\":null"[9] == 'n';
    }
  }

  /** One record: an object with the keys author, test, file, date and system, in that order. */
  function RecordObject(r: TestRecord): string {
    "{" + Field("author", r.authorEmail) + "," + Field("test", r.functionName) + ","
    + Field("file", r.filePath) + "," + Field("date", r.date) + "," + SystemField(r.systemId) + "}"
  }

  /** The objects of all records, in order. */
  function Objects(records: seq<TestRecord>): (objs: seq<string>)
    ensures |objs| == |records|
  {
    if |records| == 0 then [] else [RecordObject(records[0])] + Objects(records[1..])
  }

  /**
   * The layout `serializeToJson` writes: `[]` for no records, otherwise
   * `[` and a line break, the objects separated by `,` and a line break, a
   * final line break and `]`.
   */
  function RecordsJson(records: seq<TestRecord>): string {
    if |records| == 0 then "[]" else "[\n" + Join(Objects(records), ",\n") + "\n]"
  }

  /** The join of the first `n + 1` parts extends the join of the first `n` by one part. */
  lemma JoinPrefixStep(parts: seq<string>, n: nat, sep: string)
    requires n < |parts|
    ensures n == 0 ==> Join(parts[..n + 1], sep) == parts[0]
    ensures n > 0 ==> Join(parts[..n + 1], sep) == Join(parts[..n], sep) + sep + parts[n]
  {
    if n > 0 {
      JoinSnoc(parts[..n], parts[n], sep);
      assert parts[..n] + [parts[n]] == parts[..n + 1];
    } else {
      assert parts[..1] == [parts[0]];
    }
  }

  /**
   * The builder loop of `serializeToJson` over already written objects:
   * each object, then `,` unless it is the last, then a line break, all
   * between `[` plus a line break and `]`.
   */
  method WriteArray(objs: seq<string>) returns (sb: string)
    requires |objs| > 0
    ensures sb == "[\n" + Join(objs, ",\n") + "\n]"
  {
    sb := "[\n";
    var index := 0;
    while index < |objs|
      invariant 0 <= index <= |objs|
      invariant index == 0 ==> sb == "[\n"
      invariant 0 < index < |objs| ==> sb == "[\n" + Join(objs[..index], ",\n") + ",\n"
      invariant index == |objs| ==> sb == "[\n" + Join(objs[..index], ",\n") + "\n"
    {
      JoinPrefixStep(objs, index, ",\n");
      sb := sb + objs[index];
      if index < |objs| - 1 {
        sb := sb + ",";
      }
      sb := sb + "\n";
      index := index + 1;
    }
    assert objs[..|objs|] == objs;
    sb := sb + "]";
  }

  /** `serializeToJson`: `[]` for no records, otherwise the array of their objects. */
  method SerializeToJson(records: seq<TestRecord>) returns (json: string)
    ensures json == RecordsJson(records)
  {
    if |records| == 0 {
      return "[]";
    }
    json := WriteArray(Objects(records));
  }

  /** `entries.joinToString(",")` of `"key":"value"` pairs, between braces; `{}` when empty. */
  function MapJson(entries: seq<(string, string)>): string {
    if |entries| == 0 then "{}" else "{" + Join(Pairs(entries), ",") + "}"
  }

  /** Each entry as `"key":"value"`, both escaped. */
  function Pairs(entries: seq<(string, string)>): (ps: seq<string>)
    ensures |ps| == |entries|
    ensures forall i :: 0 <= i < |entries| ==> ps[i] == Quoted(entries[i].0) + ":" + Quoted(entries[i].1)
  {
    if |entries| == 0 then [] else [Quoted(entries[0].0) + ":" + Quoted(entries[0].1)] + Pairs(entries[1..])
  }

  // ---------------------------------------------------------------- readers

  /** The text after the literal `lit`, if `t` starts with it. */
  function Expect(t: string, lit: string): (r: Option<string>)
    ensures r.Some? <==> StartsWith(t, lit)
    ensures r.Some? ==> t == lit + r.value
  {
    if StartsWith(t, lit) then Some(t[|lit|..]) else None
  }

  /** Reads `"key":"value"` and returns the value and what follows. */
  function ReadField(t: string, key: string): (r: Option<(string, string)>)
    ensures r.Some? ==> |r.value.1| < |t|
  {
    var afterKey :- Expect(t, "\"" + key + "\":\"");
    ReadString(afterKey)
  }

  /** Reads `"system":null` or `"system":"id"`. */
  function ReadSystem(t: string): (r: Option<(Option<string>, string)>)
    ensures r.Some? ==> |r.value.1| < |t|
  {
    var afterKey :- Expect(t, "\"system\":");
    if StartsWith(afterKey, "null") then Some((None, afterKey[4..]))
    else
      var afterQuote :- Expect(afterKey, "\"");
      var id :- ReadString(afterQuote);
      Some((Some(id.0), id.1))
  }

  /** Reads one record object and returns the record and what follows it. */
  function ReadRecord(t: string): (r: Option<(TestRecord, string)>)
    ensures r.Some? ==> |r.value.1| < |t|
  {
    var t1 :- Expect(t, "{");
    var author :- ReadField(t1, "author");
    var t2 :- Expect(author.1, ",");
    var test :- ReadField(t2, "test");
    var t3 :- Expect(test.1, ",");
    var file :- ReadField(t3, "file");
    var t4 :- Expect(file.1, ",");
    var date :- ReadField(t4, "date");
    var t5 :- Expect(date.1, ",");
    var system :- ReadSystem(t5);
    var t6 :- Expect(system.1, "}");
    Some((TestRecord(author.0, test.0, file.0, date.0, system.0), t6))
  }

  /** Reads objects separated by `,` and a line break, up to the closing line break and `]`. */
  function ReadItems(t: string): Option<seq<TestRecord>>
    decreases |t|
  {
    var first :- ReadRecord(t);
    if first.1 == "\n]" then Some([first.0])
    else
      var more :- Expect(first.1, ",\n");
      var others :- ReadItems(more);
      Some([first.0] + others)
  }

  /** Reads the records array `serializeToJson` writes. */
  function ReadRecords(t: string): Option<seq<TestRecord>> {
    if t == "[]" then Some([])
    else
      var items :- Expect(t, "[\n");
      ReadItems(items)
  }

  /** Reads `"key":"value"` pairs separated by `,`, up to the closing `}`. */
  function ReadPairs(t: string): Option<seq<(string, string)>>
    decreases |t|
  {
    var t1 :- Expect(t, "\"");
    var key :- ReadString(t1);
    var t2 :- Expect(key.1, ":\"");
    var value :- ReadString(t2);
    if value.1 == "}" then Some([(key.0, value.0)])
    else
      var more :- Expect(value.1, ",");
      var others :- ReadPairs(more);
      Some([(key.0, value.0)] + others)
  }

  /** Reads the object `serializeMapToJson` writes. */
  function ReadMap(t: string): Option<seq<(string, string)>> {
    if t == "{}" then Some([])
    else
      var pairs :- Expect(t, "{");
      ReadPairs(pairs)
  }

  // ---------------------------------------------------------------- round trips

  /** A literal is read off the front of a text that starts with it. */
  lemma ExpectLiteral(lit: string, rest: string)
    ensures Expect(lit + rest, lit) == Some(rest)
  {
    assert (lit + rest)[..|lit|] == lit && (lit + rest)[|lit|..] == rest;
  }

  /** A written field reads back as its value. */
  lemma ReadFieldOf(key: string, v: string, rest: string)
    ensures ReadField(Field(key, v) + rest, key) == Some((v, rest))
  {
    var after := EscapeJson(v) + "\"" + rest;
    assert Field(key, v) + rest == ("\"" + key + "\":\"") + after;
    ExpectLiteral("\"" + key + "\":\"", after);
    EscapeJsonRoundTrip(v, rest);
  }

  /** A written system field reads back as the system, or as none. */
  lemma ReadSystemOf(systemId: Option<string>, rest: string)
    ensures ReadSystem(SystemField(systemId) + rest) == Some((systemId, rest))
  {
    match systemId {
      case None => ReadNoSystem(rest);
      case Some(id) => ReadSomeSystem(id, rest);
    }
  }

  /** `"system":null` reads back as no system. */
  lemma ReadNoSystem(rest: string)
    ensures ReadSystem(SystemField(None) + rest) == Some((None, rest))
  {
    assert SystemField(None) + rest == "\"system\":" + ("null" + rest);
    ExpectLiteral("\"system\":", "null" + rest);
    ExpectLiteral("null", rest);
  }

  /** `"system":"id"`, regrouped the way the system reader consumes it. */
  lemma SomeSystemText(id: string, rest: string)
    ensures SystemField(Some(id)) + rest == "\"system\":" + ("\"" + (EscapeJson(id) + "\"" + rest))
  {
  }

  /** A quoted value does not start with `null`. */
  lemma QuotedIsNotNull(t: string)
    ensures !StartsWith("\"" + t, "null")
  {
    assert ("\"" + t)[0] == '\"';
  }

  /** `"system":"id"` reads back as the system `id`. */
  lemma ReadSomeSystem(id: string, rest: string)
    ensures ReadSystem(SystemField(Some(id)) + rest) == Some((Some(id), rest))
  {
    var afterQuote := EscapeJson(id) + "\"" + rest;
    SomeSystemText(id, rest);
    ExpectLiteral("\"system\":", "\"" + afterQuote);
    QuotedIsNotNull(afterQuote);
    ExpectLiteral("\"", afterQuote);
    EscapeJsonRoundTrip(id, rest);
  }

  /** Regrouping the five comma-separated fields of an object, followed by more text. */
  lemma RegroupObject(a: string, b: string, c: string, d: string, e: string, rest: string)
    ensures "{" + a + "," + b + "," + c + "," + d + "," + e + "}" + rest
            == "{" + (a + ("," + (b + ("," + (c + ("," + (d + ("," + (e + ("}" + rest))))))))))
  {
  }

  /** A written record object reads back as the record. */
  lemma ReadRecordOf(r: TestRecord, rest: string)
    ensures ReadRecord(RecordObject(r) + rest) == Some((r, rest))
  {
    var u6 := "}" + rest;
    var u5 := SystemField(r.systemId) + u6;
    var u4 := Field("date", r.date) + ("," + u5);
    var u3 := Field("file", r.filePath) + ("," + u4);
    var u2 := Field("test", r.functionName) + ("," + u3);
    var u1 := Field("author", r.authorEmail) + ("," + u2);
    RegroupObject(Field("author", r.authorEmail), Field("test", r.functionName), Field("file", r.filePath),
                  Field("date", r.date), SystemField(r.systemId), rest);
    ExpectLiteral("{", u1);
    ReadFieldOf("author", r.authorEmail, "," + u2);
    ExpectLiteral(",", u2);
    ReadFieldOf("test", r.functionName, "," + u3);
    ExpectLiteral(",", u3);
    ReadFieldOf("file", r.filePath, "," + u4);
    ExpectLiteral(",", u4);
    ReadFieldOf("date", r.date, "," + u5);
    ExpectLiteral(",", u5);
    ReadSystemOf(r.systemId, u6);
    ExpectLiteral("}", rest);
  }

  /** The last object of an array. */
  lemma ReadItemsLast(t: string, r: TestRecord)
    requires ReadRecord(t) == Some((r, "\n]"))
    ensures ReadItems(t) == Some([r])
  {
  }

  /** An object followed by a separator and more objects. */
  lemma ReadItemsCons(t: string, r: TestRecord, more: string, others: seq<TestRecord>)
    requires ReadRecord(t) == Some((r, ",\n" + more)) && ReadItems(more) == Some(others)
    ensures ReadItems(t) == Some([r] + others)
  {
    assert ",\n" + more != "\n]" by {
      assert (",\n" + more)[0] == ',';
    }
    ExpectLiteral(",\n", more);
  }

  /** The text after `[` and the line break: each object, then `,` and a line break or the closing line break and `]`. */
  function ItemsText(objs: seq<string>): string
    requires |objs| > 0
    decreases |objs|
  {
    if |objs| == 1 then objs[0] + "\n]"
    else objs[0] + (",\n" + ItemsText(objs[1..]))
  }

  /** `ItemsText` is the joined objects, closed. */
  lemma {:induction false} ItemsTextIsJoin(objs: seq<string>)
    requires |objs| > 0
    ensures Join(objs, ",\n") + "\n]" == ItemsText(objs)
    decreases |objs|
  {
    if |objs| > 1 {
      JoinUncons(objs, ",\n", "\n]");
      ItemsTextIsJoin(objs[1..]);
    }
  }

  /** What follows the object at index `i` in `ItemsText(objs)`. */
  function ItemsAfter(objs: seq<string>, i: nat): string
    requires i < |objs|
  {
    if i == |objs| - 1 then "\n]" else ",\n" + ItemsText(objs[i + 1..])
  }

  /** Each object of `objs`, followed by what follows it, reads back as the record at the same index. */
  ghost predicate ObjectsReadAs(objs: seq<string>, records: seq<TestRecord>) {
    && |objs| == |records|
    && forall i :: 0 <= i < |objs| ==> ReadRecord(objs[i] + ItemsAfter(objs, i)) == Some((records[i], ItemsAfter(objs, i)))
  }

  /** Dropping the first object keeps the objects readable. */
  lemma ObjectsReadAsTail(objs: seq<string>, records: seq<TestRecord>)
    requires |objs| > 1 && ObjectsReadAs(objs, records)
    ensures ObjectsReadAs(objs[1..], records[1..])
  {
    forall i | 0 <= i < |objs| - 1
      ensures ItemsAfter(objs[1..], i) == ItemsAfter(objs, i + 1)
    {
      assert objs[1..][i + 1..] == objs[i + 2..];
    }
  }

  /** Objects that read back one by one read back together, in order. */
  lemma {:induction false} ReadItemsOfObjects(objs: seq<string>, records: seq<TestRecord>)
    requires |objs| > 0 && ObjectsReadAs(objs, records)
    ensures ReadItems(ItemsText(objs)) == Some(records)
    decreases |objs|
  {
    if |objs| == 1 {
      ReadItemsLast(ItemsText(objs), records[0]);
      assert records == [records[0]];
    } else {
      ObjectsReadAsTail(objs, records);
      ReadItemsOfObjects(objs[1..], records[1..]);
      ReadItemsCons(ItemsText(objs), records[0], ItemsText(objs[1..]), records[1..]);
      assert records == [records[0]] + records[1..];
    }
  }

  /** The object at index `i` is the `i`th record's. */
  lemma {:induction false} ObjectAt(records: seq<TestRecord>, i: nat)
    requires i < |records|
    ensures Objects(records)[i] == RecordObject(records[i])
    decreases i
  {
    assert Objects(records) == [RecordObject(records[0])] + Objects(records[1..]);
    if i > 0 {
      ObjectAt(records[1..], i - 1);
    }
  }

  /** The written objects read back one by one. */
  lemma WrittenObjectsReadAs(records: seq<TestRecord>)
    ensures ObjectsReadAs(Objects(records), records)
  {
    var objs := Objects(records);
    forall i | 0 <= i < |objs|
      ensures ReadRecord(objs[i] + ItemsAfter(objs, i)) == Some((records[i], ItemsAfter(objs, i)))
    {
      ObjectAt(records, i);
      ReadRecordOf(records[i], ItemsAfter(objs, i));
    }
  }

  /** The objects of non-empty records, each followed by its separator or the closing bracket, read back as the records. */
  lemma ReadItemsOf(records: seq<TestRecord>)
    requires |records| > 0
    ensures ReadItems(ItemsText(Objects(records))) == Some(records)
  {
    WrittenObjectsReadAs(records);
    ReadItemsOfObjects(Objects(records), records);
  }

  /** `serializeToJson` loses nothing: reading its output back gives the records, in order. */
  lemma RecordsJsonRoundTrip(records: seq<TestRecord>)
    ensures ReadRecords(RecordsJson(records)) == Some(records)
  {
    if |records| > 0 {
      var objs := Objects(records);
      ItemsTextIsJoin(objs);
      assert RecordsJson(records) == "[\n" + ItemsText(objs);
      ReadItemsOf(records);
      ReadArrayOf(ItemsText(objs), records);
    }
  }

  /** An opening bracket and line break in front of readable items read back as those items. */
  lemma ReadArrayOf(items: string, records: seq<TestRecord>)
    requires ReadItems(items) == Some(records)
    ensures ReadRecords("[\n" + items) == Some(records)
  {
    assert "[\n" + items != "[]" by {
      assert ("[\n" + items)[1] == '\n';
    }
    ExpectLiteral("[\n", items);
  }

  /** Regrouping a written pair followed by more text, the way the pair reader consumes it. */
  lemma RegroupPair(ek: string, ev: string, tail: string)
    ensures "\"" + ek + "\"" + ":" + ("\"" + ev + "\"") + tail == "\"" + (ek + "\"" + (":\"" + (ev + "\"" + tail)))
  {
  }

  /** The text of one written pair. */
  function PairText(k: string, v: string): string {
    Quoted(k) + ":" + Quoted(v)
  }

  /** The pair reader takes a written pair off the front, key first, then value. */
  lemma ReadPairPrefix(k: string, v: string, after: string)
    ensures var afterValue := EscapeJson(v) + "\"" + after;
            var afterKey := EscapeJson(k) + "\"" + (":\"" + afterValue);
            && Expect(PairText(k, v) + after, "\"") == Some(afterKey)
            && ReadString(afterKey) == Some((k, ":\"" + afterValue))
            && Expect(":\"" + afterValue, ":\"") == Some(afterValue)
            && ReadString(afterValue) == Some((v, after))
  {
    var afterValue := EscapeJson(v) + "\"" + after;
    var afterKey := EscapeJson(k) + "\"" + (":\"" + afterValue);
    RegroupPair(EscapeJson(k), EscapeJson(v), after);
    assert PairText(k, v) + after == "\"" + afterKey;
    ExpectLiteral("\"", afterKey);
    EscapeJsonRoundTrip(k, ":\"" + afterValue);
    ExpectLiteral(":\"", afterValue);
    EscapeJsonRoundTrip(v, after);
  }

  /** The last pair of an object. */
  lemma ReadPairsLast(k: string, v: string)
    ensures ReadPairs(PairText(k, v) + "}") == Some([(k, v)])
  {
    ReadPairPrefix(k, v, "}");
  }

  /** A pair followed by a separator and more pairs. */
  lemma ReadPairsStep(k: string, v: string, tail: string, others: seq<(string, string)>)
    requires ReadPairs(tail) == Some(others)
    ensures ReadPairs(PairText(k, v) + ("," + tail)) == Some([(k, v)] + others)
  {
    ReadPairPrefix(k, v, "," + tail);
    assert "," + tail != "}" by {
      assert ("," + tail)[0] == ',';
    }
    ExpectLiteral(",", tail);
  }

  /** The text after `{`: each pair, then `,` or the closing `}`. */
  function PairsText(entries: seq<(string, string)>): string
    requires |entries| > 0
    decreases |entries|
  {
    if |entries| == 1 then PairText(entries[0].0, entries[0].1) + "}"
    else PairText(entries[0].0, entries[0].1) + ("," + PairsText(entries[1..]))
  }

  /** `PairsText` is the joined pairs, closed. */
  lemma {:induction false} PairsTextIsJoin(entries: seq<(string, string)>)
    requires |entries| > 0
    ensures Join(Pairs(entries), ",") + "}" == PairsText(entries)
    decreases |entries|
  {
    var ps := Pairs(entries);
    assert ps == [PairText(entries[0].0, entries[0].1)] + Pairs(entries[1..]);
    if |entries| > 1 {
      assert ps[1..] == Pairs(entries[1..]);
      JoinUncons(ps, ",", "}");
      PairsTextIsJoin(entries[1..]);
    }
  }

  /** The pairs of non-empty entries, each followed by `,` or the closing brace, read back as the entries. */
  lemma {:induction false} ReadPairsOf(entries: seq<(string, string)>)
    requires |entries| > 0
    ensures ReadPairs(PairsText(entries)) == Some(entries)
    decreases |entries|
  {
    if |entries| == 1 {
      ReadPairsLast(entries[0].0, entries[0].1);
      assert entries == [(entries[0].0, entries[0].1)];
    } else {
      ReadPairsOf(entries[1..]);
      ReadPairsStep(entries[0].0, entries[0].1, PairsText(entries[1..]), entries[1..]);
      assert entries == [(entries[0].0, entries[0].1)] + entries[1..];
    }
  }

  /** `serializeMapToJson` loses nothing: reading its output back gives the entries, in order. */
  lemma MapJsonRoundTrip(entries: seq<(string, string)>)
    ensures ReadMap(MapJson(entries)) == Some(entries)
  {
    if |entries| > 0 {
      PairsTextIsJoin(entries);
      assert MapJson(entries) == "{" + PairsText(entries);
      ReadPairsOf(entries);
      ReadObjectOf(PairsText(entries), entries);
    }
  }

  /** An opening brace in front of readable pairs reads back as those pairs. */
  lemma ReadObjectOf(pairs: string, entries: seq<(string, string)>)
    requires ReadPairs(pairs) == Some(entries)
    ensures ReadMap("{" + pairs) == Some(entries)
  {
    assert "{" + pairs != "{}" by {
      assert StartsWith(pairs, "\"");
      assert ("{" + pairs)[1] == '\"';
    }
    ExpectLiteral("{", pairs);
  }

  /** The empty-map case of `serializeMapToJson` writes what the general case would. */
  lemma EmptyMapIsGeneralCase()
    ensures MapJson([]) == "{" + Join(Pairs([]), ",") + "}"
  {
  }
}

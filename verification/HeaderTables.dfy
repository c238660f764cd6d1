/** The two header tables of `headers/mod.rs`, and that every name in them is dispatched to its own
    row.
 */
module HeaderTables {
  import opened Octets
  import opened Serialization
  import opened HeaderValues
  import opened Headers
  import opened Requests
  import opened Responses

  /** General header fields, section 4.5 of RFC 2616; in both tables. */
  function GeneralRows(isDate: string -> bool): seq<Row> {
    [
      Row("Cache-Control", "Cache-Control", TextKind),
      Row("Connection", "Connection", ListKind(ConnectionKind)),
      Row("Date", "Date", ForeignKind(isDate)),
      Row("Pragma", "Pragma", TextKind),
      Row("Trailer", "Trailer", TextKind),
      Row("Transfer-Encoding", "Transfer-Encoding", ListKind(CodingKind)),
      Row("Upgrade", "Upgrade", TextKind),
      Row("Via", "Via", TextKind),
      Row("Warning", "Warning", TextKind)
    ]
  }

  /** Request header fields, section 5.3 of RFC 2616, up to If-Modified-Since. */
  function RequestRowsA(isDate: string -> bool): seq<Row> {
    [
      Row("Accept", "Accept", TextKind),
      Row("Accept-Charset", "Accept-Charset", TextKind),
      Row("Accept-Encoding", "Accept-Encoding", TextKind),
      Row("Accept-Language", "Accept-Language", TextKind),
      Row("Authorization", "Authorization", TextKind),
      Row("Expect", "Expect", TextKind),
      Row("From", "From", TextKind),
      Row("Host", "Host", HostKind),
      Row("If-Match", "If-Match", TextKind),
      Row("If-Modified-Since", "If-Modified-Since", ForeignKind(isDate))
    ]
  }

  /** Request header fields, continued. */
  function RequestRowsB(isDate: string -> bool): seq<Row> {
    [
      Row("If-None-Match", "If-None-Match", TextKind),
      Row("If-Range", "If-Range", TextKind),
      Row("If-Unmodified-Since", "If-Unmodified-Since", ForeignKind(isDate)),
      Row("Max-Forwards", "Max-Forwards", NumberKind),
      Row("Proxy-Authorization", "Proxy-Authorization", TextKind),
      Row("Range", "Range", TextKind),
      Row("Referer", "Referer", TextKind),
      Row("TE", "Te", TextKind),
      Row("User-Agent", "User-Agent", TextKind)
    ]
  }

  /** Response header fields, section 6.2 of RFC 2616. */
  function ResponseOnlyRows(isUrl: string -> bool): seq<Row> {
    [
      Row("Accept-Patch", "Accept-Patch", TextKind),
      Row("Accept-Ranges", "Accept-Ranges", RangesKind),
      Row("Age", "Age", TextKind),
      Row("ETag", "Etag", TagKind),
      Row("Location", "Location", ForeignKind(isUrl)),
      Row("Proxy-Authenticate", "Proxy-Authenticate", TextKind),
      Row("Retry-After", "Retry-After", TextKind),
      Row("Server", "Server", TextKind),
      Row("Vary", "Vary", TextKind),
      Row("WWW-Authenticate", "Www-Authenticate", TextKind)
    ]
  }

  /** Entity header fields, section 7.1 of RFC 2616; only the type of Expires differs between the tables. */
  function EntityRows(isDate: string -> bool, expires: Kind): seq<Row> {
    [
      Row("Allow", "Allow", ListKind(MethodKind)),
      Row("Content-Encoding", "Content-Encoding", TextKind),
      Row("Content-Language", "Content-Language", TextKind),
      Row("Content-Length", "Content-Length", NumberKind),
      Row("Content-Location", "Content-Location", TextKind),
      Row("Content-MD5", "Content-Md5", TextKind),
      Row("Content-Range", "Content-Range", TextKind),
      Row("Content-Type", "Content-Type", MediaKind),
      Row("Expires", "Expires", expires),
      Row("Last-Modified", "Last-Modified", ForeignKind(isDate))
    ]
  }

  /** Dates and URLs are converted by code outside the repository. */
  function RequestHeaders(isDate: string -> bool): seq<Row> {
    GeneralRows(isDate) + RequestRowsA(isDate) + RequestRowsB(isDate) + EntityRows(isDate, ForeignKind(isDate))
  }

  function ResponseHeaders(isDate: string -> bool, isUrl: string -> bool): seq<Row> {
    GeneralRows(isDate) + ResponseOnlyRows(isUrl) + EntityRows(isDate, TextKind)
  }

  // ---------------------------------------------------------------- names

  /** At one place of a name: the first letter of a word is in upper case, and a letter inside a
      word is read in lower case whatever case it is printed in. */
  predicate NamedAt(outputName: string, inputName: string, k: nat)
    requires k < |outputName| == |inputName|
  {
    var o, i := outputName[k], inputName[k];
    if k == 0 || outputName[k - 1] == '-' then IsUpper(o) && i == o
    else (i == o && (IsLower(o) || o == '-' || o == '5')) || (IsUpper(o) && i as int == o as int + 32)
  }

  /** Words joined by hyphens, printed in one case and read in the normal one. */
  predicate Named(outputName: string, inputName: string) {
    && |outputName| == |inputName|
    && forall k :: 0 <= k < |outputName| ==> NamedAt(outputName, inputName, k)
  }

  lemma NamedIsNormal(outputName: string, inputName: string)
    requires Named(outputName, inputName)
    ensures IsToken(outputName) && Normalise(outputName) == inputName
  {
    forall k | 0 <= k < |outputName| ensures IsTokenItem(outputName[k]) && NormalAt(outputName, inputName, k) {
      assert NamedAt(outputName, inputName, k);
    }
    NormaliseIs(outputName, inputName);
  }

  predicate GoodRow(row: Row) { Named(row.outputName, row.inputName) }

  predicate GoodRows(rows: seq<Row>) { forall i :: 0 <= i < |rows| ==> GoodRow(rows[i]) }

  lemma GeneralRowsNamed1()
    ensures Named("Cache-Control", "Cache-Control") && Named("Connection", "Connection") && Named("Date", "Date")
  {}

  lemma GeneralRowsNamed2()
    ensures Named("Pragma", "Pragma") && Named("Trailer", "Trailer")
  {}

  lemma GeneralRowsNamed3()
    ensures Named("Transfer-Encoding", "Transfer-Encoding") && Named("Upgrade", "Upgrade") && Named("Via", "Via")
  {}

  lemma GeneralRowsNamed4()
    ensures Named("Warning", "Warning")
  {}

  lemma GeneralRowsAreGood(isDate: string -> bool)
    ensures GoodRows(GeneralRows(isDate))
  {
    GeneralRowsNamed1();
    GeneralRowsNamed2();
    GeneralRowsNamed3();
    GeneralRowsNamed4();
  }

  lemma RequestRowsANamed1()
    ensures Named("Accept", "Accept") && Named("Accept-Charset", "Accept-Charset")
  {}

  lemma RequestRowsANamed2()
    ensures Named("Accept-Encoding", "Accept-Encoding")
  {}

  lemma RequestRowsANamed3()
    ensures Named("Accept-Language", "Accept-Language") && Named("Authorization", "Authorization")
  {}

  lemma RequestRowsANamed4()
    ensures Named("Expect", "Expect") && Named("From", "From") && Named("Host", "Host") && Named("If-Match", "If-Match")
  {}

  lemma RequestRowsANamed5()
    ensures Named("If-Modified-Since", "If-Modified-Since")
  {}

  lemma RequestRowsAAreGood(isDate: string -> bool)
    ensures GoodRows(RequestRowsA(isDate))
  {
    RequestRowsANamed1();
    RequestRowsANamed2();
    RequestRowsANamed3();
    RequestRowsANamed4();
    RequestRowsANamed5();
  }

  lemma RequestRowsBNamed1()
    ensures Named("If-None-Match", "If-None-Match") && Named("If-Range", "If-Range")
  {}

  lemma RequestRowsBNamed2()
    ensures Named("If-Unmodified-Since", "If-Unmodified-Since")
  {}

  lemma RequestRowsBNamed3()
    ensures Named("Max-Forwards", "Max-Forwards")
  {}

  lemma RequestRowsBNamed4()
    ensures Named("Proxy-Authorization", "Proxy-Authorization") && Named("Range", "Range")
  {}

  lemma RequestRowsBNamed5()
    ensures Named("Referer", "Referer") && Named("TE", "Te") && Named("User-Agent", "User-Agent")
  {}

  lemma RequestRowsBAreGood(isDate: string -> bool)
    ensures GoodRows(RequestRowsB(isDate))
  {
    RequestRowsBNamed1();
    RequestRowsBNamed2();
    RequestRowsBNamed3();
    RequestRowsBNamed4();
    RequestRowsBNamed5();
  }

  lemma ResponseOnlyRowsNamed1()
    ensures Named("Accept-Patch", "Accept-Patch") && Named("Accept-Ranges", "Accept-Ranges") && Named("Age", "Age")
  {}

  lemma ResponseOnlyRowsNamed2()
    ensures Named("ETag", "Etag") && Named("Location", "Location")
  {}

  lemma ResponseOnlyRowsNamed3()
    ensures Named("Proxy-Authenticate", "Proxy-Authenticate")
  {}

  lemma ResponseOnlyRowsNamed4()
    ensures Named("Retry-After", "Retry-After") && Named("Server", "Server") && Named("Vary", "Vary")
  {}

  lemma ResponseOnlyRowsNamed5()
    ensures Named("WWW-Authenticate", "Www-Authenticate")
  {}

  lemma ResponseOnlyRowsAreGood(isUrl: string -> bool)
    ensures GoodRows(ResponseOnlyRows(isUrl))
  {
    ResponseOnlyRowsNamed1();
    ResponseOnlyRowsNamed2();
    ResponseOnlyRowsNamed3();
    ResponseOnlyRowsNamed4();
    ResponseOnlyRowsNamed5();
  }

  lemma EntityRowsNamed1()
    ensures Named("Allow", "Allow") && Named("Content-Encoding", "Content-Encoding")
  {}

  lemma EntityRowsNamed2()
    ensures Named("Content-Language", "Content-Language")
  {}

  lemma EntityRowsNamed3()
    ensures Named("Content-Length", "Content-Length")
  {}

  lemma EntityRowsNamed4()
    ensures Named("Content-Location", "Content-Location") && Named("Content-MD5", "Content-Md5")
  {}

  lemma EntityRowsNamed5()
    ensures Named("Content-Range", "Content-Range") && Named("Content-Type", "Content-Type")
  {}

  lemma EntityRowsNamed6()
    ensures Named("Expires", "Expires") && Named("Last-Modified", "Last-Modified")
  {}

  lemma EntityRowsAreGood(isDate: string -> bool, expires: Kind)
    ensures GoodRows(EntityRows(isDate, expires))
  {
    EntityRowsNamed1();
    EntityRowsNamed2();
    EntityRowsNamed3();
    EntityRowsNamed4();
    EntityRowsNamed5();
    EntityRowsNamed6();
  }

  // ---------------------------------------------------------------- names are told apart

  /** A name of that length between those two letters: no two names of a table share all three. */
  predicate Marked(name: string, length: nat, first: char, last: char) {
    name != "" && |name| == length && name[0] == first && name[|name| - 1] == last
  }

  /** The row of a name by its length, first and last letter. */
  function RequestRow(name: string): nat {
    if Marked(name, 13, 'C', 'l') then 0 else if Marked(name, 10, 'C', 'n') then 1 else
    if Marked(name, 4, 'D', 'e') then 2 else if Marked(name, 6, 'P', 'a') then 3 else
    if Marked(name, 7, 'T', 'r') then 4 else if Marked(name, 17, 'T', 'g') then 5 else
    if Marked(name, 7, 'U', 'e') then 6 else if Marked(name, 3, 'V', 'a') then 7 else
    if Marked(name, 7, 'W', 'g') then 8 else if Marked(name, 6, 'A', 't') then 9 else
    if Marked(name, 14, 'A', 't') then 10 else if Marked(name, 15, 'A', 'g') then 11 else
    if Marked(name, 15, 'A', 'e') then 12 else if Marked(name, 13, 'A', 'n') then 13 else
    if Marked(name, 6, 'E', 't') then 14 else if Marked(name, 4, 'F', 'm') then 15 else
    if Marked(name, 4, 'H', 't') then 16 else if Marked(name, 8, 'I', 'h') then 17 else
    if Marked(name, 17, 'I', 'e') then 18 else if Marked(name, 13, 'I', 'h') then 19 else
    if Marked(name, 8, 'I', 'e') then 20 else if Marked(name, 19, 'I', 'e') then 21 else
    if Marked(name, 12, 'M', 's') then 22 else if Marked(name, 19, 'P', 'n') then 23 else
    if Marked(name, 5, 'R', 'e') then 24 else if Marked(name, 7, 'R', 'r') then 25 else
    if Marked(name, 2, 'T', 'e') then 26 else if Marked(name, 10, 'U', 't') then 27 else
    if Marked(name, 5, 'A', 'w') then 28 else if Marked(name, 16, 'C', 'g') then 29 else
    if Marked(name, 16, 'C', 'e') then 30 else if Marked(name, 14, 'C', 'h') then 31 else
    if Marked(name, 16, 'C', 'n') then 32 else if Marked(name, 11, 'C', '5') then 33 else
    if Marked(name, 13, 'C', 'e') then 34 else if Marked(name, 12, 'C', 'e') then 35 else
    if Marked(name, 7, 'E', 's') then 36 else if Marked(name, 13, 'L', 'd') then 37 else
    38
  }

  function ResponseRow(name: string): nat {
    if Marked(name, 13, 'C', 'l') then 0 else if Marked(name, 10, 'C', 'n') then 1 else
    if Marked(name, 4, 'D', 'e') then 2 else if Marked(name, 6, 'P', 'a') then 3 else
    if Marked(name, 7, 'T', 'r') then 4 else if Marked(name, 17, 'T', 'g') then 5 else
    if Marked(name, 7, 'U', 'e') then 6 else if Marked(name, 3, 'V', 'a') then 7 else
    if Marked(name, 7, 'W', 'g') then 8 else if Marked(name, 12, 'A', 'h') then 9 else
    if Marked(name, 13, 'A', 's') then 10 else if Marked(name, 3, 'A', 'e') then 11 else
    if Marked(name, 4, 'E', 'g') then 12 else if Marked(name, 8, 'L', 'n') then 13 else
    if Marked(name, 18, 'P', 'e') then 14 else if Marked(name, 11, 'R', 'r') then 15 else
    if Marked(name, 6, 'S', 'r') then 16 else if Marked(name, 4, 'V', 'y') then 17 else
    if Marked(name, 16, 'W', 'e') then 18 else if Marked(name, 5, 'A', 'w') then 19 else
    if Marked(name, 16, 'C', 'g') then 20 else if Marked(name, 16, 'C', 'e') then 21 else
    if Marked(name, 14, 'C', 'h') then 22 else if Marked(name, 16, 'C', 'n') then 23 else
    if Marked(name, 11, 'C', '5') then 24 else if Marked(name, 13, 'C', 'e') then 25 else
    if Marked(name, 12, 'C', 'e') then 26 else if Marked(name, 7, 'E', 's') then 27 else
    if Marked(name, 13, 'L', 'd') then 28 else
    29
  }

  lemma RequestRowOfGeneralRows(isDate: string -> bool, i: nat)
    requires i < 9
    ensures RequestRow(GeneralRows(isDate)[i].inputName) == i
  {}

  lemma RequestRowOfRequestRowsA(isDate: string -> bool, i: nat)
    requires i < 10
    ensures RequestRow(RequestRowsA(isDate)[i].inputName) == i + 9
  {}

  lemma RequestRowOfRequestRowsB(isDate: string -> bool, i: nat)
    requires i < 9
    ensures RequestRow(RequestRowsB(isDate)[i].inputName) == i + 19
  {}

  lemma RequestRowOfEntityRows(isDate: string -> bool, expires: Kind, i: nat)
    requires i < 10
    ensures RequestRow(EntityRows(isDate, expires)[i].inputName) == i + 28
  {}

  lemma ResponseRowOfGeneralRows(isDate: string -> bool, i: nat)
    requires i < 9
    ensures ResponseRow(GeneralRows(isDate)[i].inputName) == i
  {}

  lemma ResponseRowOfResponseOnlyRows(isUrl: string -> bool, i: nat)
    requires i < 10
    ensures ResponseRow(ResponseOnlyRows(isUrl)[i].inputName) == i + 9
  {}

  lemma ResponseRowOfEntityRows(isDate: string -> bool, expires: Kind, i: nat)
    requires i < 10
    ensures ResponseRow(EntityRows(isDate, expires)[i].inputName) == i + 19
  {}

  /** Rows that are told apart are dispatched to each by its own name. */
  lemma DispatchFindsRow(table: seq<Row>, number: string -> nat, i: nat)
    requires i < |table| && forall k :: 0 <= k < |table| ==> number(table[k].inputName) == k
    ensures Dispatch(table, table[i].inputName) == i
  {}

  lemma RequestRowKnown(isDate: string -> bool, k: nat)
    requires k < 38
    ensures
      var row := RequestHeaders(isDate)[k];
      GoodRow(row) && RequestRow(row.inputName) == k
  {
    var row := RequestHeaders(isDate)[k];
    if k < 9 {
      assert row == GeneralRows(isDate)[k];
      GeneralRowsAreGood(isDate);
      RequestRowOfGeneralRows(isDate, k);
    } else if k < 19 {
      assert row == RequestRowsA(isDate)[k - 9];
      RequestRowsAAreGood(isDate);
      RequestRowOfRequestRowsA(isDate, k - 9);
    } else if k < 28 {
      assert row == RequestRowsB(isDate)[k - 19];
      RequestRowsBAreGood(isDate);
      RequestRowOfRequestRowsB(isDate, k - 19);
    } else {
      assert row == EntityRows(isDate, ForeignKind(isDate))[k - 28];
      EntityRowsAreGood(isDate, ForeignKind(isDate));
      RequestRowOfEntityRows(isDate, ForeignKind(isDate), k - 28);
    }
  }

  lemma ResponseRowKnown(isDate: string -> bool, isUrl: string -> bool, k: nat)
    requires k < 29
    ensures
      var row := ResponseHeaders(isDate, isUrl)[k];
      GoodRow(row) && ResponseRow(row.inputName) == k
  {
    var row := ResponseHeaders(isDate, isUrl)[k];
    if k < 9 {
      assert row == GeneralRows(isDate)[k];
      GeneralRowsAreGood(isDate);
      ResponseRowOfGeneralRows(isDate, k);
    } else if k < 19 {
      assert row == ResponseOnlyRows(isUrl)[k - 9];
      ResponseOnlyRowsAreGood(isUrl);
      ResponseRowOfResponseOnlyRows(isUrl, k - 9);
    } else {
      assert row == EntityRows(isDate, TextKind)[k - 19];
      EntityRowsAreGood(isDate, TextKind);
      ResponseRowOfEntityRows(isDate, TextKind, k - 19);
    }
  }

  /** Rows with good names that are told apart make a good table. */
  lemma TableIsGood(table: seq<Row>, number: string -> nat)
    requires forall k :: 0 <= k < |table| ==> GoodRow(table[k]) && number(table[k].inputName) == k
    ensures GoodTable(table)
  {
    forall i | 0 <= i < |table|
      ensures IsToken(table[i].outputName) && Normalise(table[i].outputName) == table[i].inputName
      ensures Dispatch(table, table[i].inputName) == i
    {
      assert GoodRow(table[i]);
      NamedIsNormal(table[i].outputName, table[i].inputName);
      DispatchFindsRow(table, number, i);
    }
  }

  lemma RequestKinds(isDate: string -> bool)
    ensures |RequestHeaders(isDate)| == 38 && RequestHeaders(isDate)[CONNECTION_ROW].kind == ListKind(ConnectionKind)
    ensures RequestHeaders(isDate)[HOST_ROW].kind == HostKind
  {
    assert RequestHeaders(isDate)[HOST_ROW] == RequestRowsA(isDate)[7];
  }

  lemma ResponseKinds(isDate: string -> bool, isUrl: string -> bool)
    ensures |ResponseHeaders(isDate, isUrl)| == 29
    ensures ResponseHeaders(isDate, isUrl)[5].kind == ListKind(CodingKind)
    ensures ResponseHeaders(isDate, isUrl)[22].kind == NumberKind
    ensures ResponseHeaders(isDate, isUrl)[26].kind == MediaKind
  {}

  /** Every name that is printed for a request header is dispatched to its own row when it is read. */
  lemma RequestTableIsGood(isDate: string -> bool)
    ensures RequestTable(RequestHeaders(isDate))
  {
    var table := RequestHeaders(isDate);
    forall k | 0 <= k < |table| ensures GoodRow(table[k]) && RequestRow(table[k].inputName) == k {
      RequestRowKnown(isDate, k);
    }
    TableIsGood(table, RequestRow);
    RequestKinds(isDate);
  }

  /** Every name that is printed for a response header is dispatched to its own row when it is read. */
  lemma ResponseTableIsGood(isDate: string -> bool, isUrl: string -> bool)
    ensures ResponseTable(ResponseHeaders(isDate, isUrl))
  {
    var table := ResponseHeaders(isDate, isUrl);
    forall k | 0 <= k < |table| ensures GoodRow(table[k]) && ResponseRow(table[k].inputName) == k {
      ResponseRowKnown(isDate, isUrl, k);
    }
    TableIsGood(table, ResponseRow);
    ResponseKinds(isDate, isUrl);
  }

  /** Reading a name that differs from a table's name only in case dispatches to its row. */
  lemma DispatchIgnoresCase(table: seq<Row>, i: nat, name: string)
    requires GoodTable(table) && i < |table|
    ensures SameIgnoringCase(name, table[i].outputName) <==> Dispatch(table, Normalise(name)) == i
  {
    NormaliseIsCanonical(name, table[i].outputName);
  }
}

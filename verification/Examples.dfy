/** The forms that the source's tests and documentation write out. */
module Examples {
  import opened Octets
  import opened Numbers
  import opened Chunked
  import opened HeaderIterators
  import opened Serialization
  import opened HeaderValues
  import opened Headers
  import opened Requests
  import opened Conversations

  lemma ChunkForm()
    ensures Frame("hello") == "5\r\nhello\r\n" && LAST_CHUNK == "0\r\n\r\n" && Digits(255, 16) == "ff"
  {
    assert Digits(5, 16) == "5" && Digits(15, 16) == "f";
  }

  /** A header folded over two lines, and the line after it. */
  lemma FoldForm()
    ensures Unfold("a\r\n\tb\nX", false, false) == "a\tb" && After("a\r\n\tb\nX", false) == "X"
  {
    var s := "a\r\n\tb\nX";
    var s1, s2, s3, s4, s5 := "\r\n\tb\nX", "\n\tb\nX", "\tb\nX", "b\nX", "\nX";
    assert s[1..] == s1 && s1[1..] == s2 && s2[1..] == s3 && s3[1..] == s4 && s4[1..] == s5 && s5[1..] == "X";
    assert Unfold(s5, false, false) == "" && Unfold(s4, false, false) == "b";
    assert Unfold(s3, false, true) == "\tb" && Unfold(s1, false, false) == "\tb";
    assert After(s5, false) == "X" && After(s4, false) == "X" && After(s3, true) == "X" && After(s1, false) == "X";
  }

  lemma TokenForm()
    ensures IsToken("key") && IsToken("value") && !IsToken("fO0 bar")
  {
    LowerCaseName("key");
    LowerCaseName("value");
    assert !IsTokenItem("fO0 bar"[3]);
  }

  /** Extension headers are printed in the order of their names. */
  lemma KeyOrder()
    ensures Less("X-Bar", "X-Foo") && Less("X", "X-Foo") && !Less("X-Foo", "X-Bar")
  {
    LessAfter("X-", "Bar", "Foo");
    LessAfter("X-", "Foo", "Bar");
    assert "X-" + "Bar" == "X-Bar" && "X-" + "Foo" == "X-Foo";
    assert "X"[1..] == "" && "X-Foo"[1..] != "";
  }

  lemma {:induction false} LessAfter(prefix: string, s: string, t: string)
    ensures Less(prefix + s, prefix + t) <==> Less(s, t)
  {
    if prefix == "" {
      assert prefix + s == s && prefix + t == t;
    } else {
      assert (prefix + s)[1..] == prefix[1..] + s && (prefix + t)[1..] == prefix[1..] + t;
      LessAfter(prefix[1..], s, t);
    }
  }

  lemma MediaForm()
    ensures PrintMedia(MediaType("type", "subtype", [("key", "value")])) == "type/subtype;key=value"
  {
    TokenForm();
    var p := ("key", "value");
    assert [p][1..] == [] && PrintParameters([p]) == ";" + PrintParameter(p) + "" == ";key=value";
    assert "type/subtype" + ";key=value" == "type/subtype;key=value";
  }

  lemma ListForm()
    ensures PrintList([ConnectionItem(Token("Foo")), ConnectionItem(Close)]) == "Foo, close"
  {
    var items := [ConnectionItem(Token("Foo")), ConnectionItem(Close)];
    assert items[1..] == [ConnectionItem(Close)] && PrintList(items[1..]) == "close";
  }

  lemma TagForm()
    ensures PrintTag(EntityTag(true, "a\"b")) == "W/\"a\\\"b\"" && PrintTag(EntityTag(false, "")) == "\"\""
  {
    assert "b"[1..] == "" && Escape("b") == "b" + "" == "b";
    assert "\"b"[1..] == "b" && Escape("\"b") == "\\\"" + "b" == "\\\"b";
    assert "a\"b"[1..] == "\"b" && Escape("a\"b") == "a" + "\\\"b" == "a\\\"b";
  }

  lemma HeaderForm(table: seq<Row>, i: nat)
    requires i < |table| && table[i].outputName == "Connection"
    ensures PrintHeader(table, Known(i, List([ConnectionItem(Close)]))) == "Connection: close\r\n"
    ensures PrintHeader(table, Extension("X-Foo", "bar")) == "X-Foo: bar\r\n"
  {
    assert "Connection" + ": " == "Connection: " && "Connection: " + "close" == "Connection: close";
    assert "X-Foo" + ": " == "X-Foo: " && "X-Foo: " + "bar" == "X-Foo: bar";
  }

  lemma RequestLineForm(headers: Collection)
    ensures LineText(Sent(Get, AbsolutePath("/"), (1, 1), headers)) == "GET / HTTP/1.1\r\n"
  {
    assert Digits(1, 10) == "1" && VersionText((1, 1)) == "HTTP/1.1";
    assert "GET" + " " + "/" + " " == "GET / " && "GET / " + "HTTP/1.1" == "GET / HTTP/1.1";
  }
}

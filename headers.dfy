/** Flattening of multi-valued HTTP headers into single strings (getHeaders). */
module Headers {
  import opened Strings

  /** Go's http.Header: a header name and the values received for it, in order. */
  type Header = map<string, seq<string>>

  /** What getHeaders appends after each value, and also the cutset it trims with. */
  const Separator: string := " ,"

  /** Reference definition: the values joined with Separator between
      consecutive elements, as strings.Join would join them. */
  function Join(vs: seq<string>): string
  {
    if |vs| == 0 then ""
    else if |vs| == 1 then vs[0]
    else vs[0] + Separator + Join(vs[1..])
  }

  /** The accumulator of getHeaders' inner loop after it has seen vs:
      every value followed by Separator. */
  function Accumulated(vs: seq<string>): (r: string)
    ensures vs != [] ==> |r| >= 2 && r[|r| - 2] == ' ' && r[|r| - 1] == ','
  {
    if |vs| == 0 then "" else Accumulated(vs[..|vs| - 1]) + vs[|vs| - 1] + Separator
  }

  /** The single string getHeaders stores for a header with values vs. */
  function Flatten(vs: seq<string>): (r: string)
    ensures !EndsIn(r, Separator)
    ensures vs == [] ==> r == ""
  {
    TrimRight(Accumulated(vs), Separator)
  }

  /** The flattened form of every header of h: each name's values joined
      with Separator, with all trailing spaces and commas trimmed off. */
  function FlattenHeader(h: Header): (r: map<string, string>)
    ensures r.Keys == h.Keys
    ensures forall k :: k in r ==> r[k] == TrimRight(Join(h[k]), Separator)
    ensures forall k :: k in r ==> !EndsIn(r[k], Separator)
  {
    assert forall k :: k in h ==> Flatten(h[k]) == TrimRight(Join(h[k]), Separator) by {
      forall k | k in h {
        FlattenIsTrimmedJoin(h[k]);
      }
    }
    map k | k in h :: Flatten(h[k])
  }

  /** getHeaders: one entry per header name, holding its values flattened.
      The names are visited in an unspecified order, as Go's map range does. */
  method GetHeaders(header: Header) returns (headers: map<string, string>)
    ensures headers.Keys == header.Keys
    ensures forall k :: k in headers ==> headers[k] == Flatten(header[k])
  {
    headers := map[];
    var pending := header.Keys;
    while pending != {}
      invariant pending <= header.Keys
      invariant headers.Keys == header.Keys - pending
      invariant forall k :: k in headers ==> headers[k] == Flatten(header[k])
      decreases pending
    {
      var k :| k in pending;
      var v := header[k];
      var value := "";
      for i := 0 to |v|
        invariant value == Accumulated(v[..i])
      {
        assert v[..i + 1][..i] == v[..i];
        value := value + v[i] + Separator;
      }
      assert v[..|v|] == v;
      value := TrimRight(value, Separator);
      headers := headers[k := value];
      pending := pending - {k};
    }
  }

  /** A map with GetHeaders' two postconditions is FlattenHeader of its input. */
  lemma FlattenHeaderDetermined(header: Header, headers: map<string, string>)
    requires headers.Keys == header.Keys
    requires forall k :: k in headers ==> headers[k] == Flatten(header[k])
    ensures headers == FlattenHeader(header)
  {
  }

  /** Joining one more value adds Separator and that value at the end. */
  lemma {:induction false} JoinSnoc(vs: seq<string>, x: string)
    requires |vs| > 0
    ensures Join(vs + [x]) == Join(vs) + Separator + x
  {
    if |vs| == 1 {
      assert (vs + [x])[1..] == [x];
    } else {
      assert (vs + [x])[1..] == vs[1..] + [x];
      JoinSnoc(vs[1..], x);
    }
  }

  /** The inner loop builds the joined values plus one trailing Separator. */
  lemma {:induction false} AccumulatedIsJoin(vs: seq<string>)
    requires |vs| > 0
    ensures Accumulated(vs) == Join(vs) + Separator
  {
    var init, last := vs[..|vs| - 1], vs[|vs| - 1];
    assert vs == init + [last];
    if |vs| > 1 {
      AccumulatedIsJoin(init);
      JoinSnoc(init, last);
    }
  }

  /** Flattening is joining with Separator and then trimming every trailing
      space and comma off the joined string. */
  lemma FlattenIsTrimmedJoin(vs: seq<string>)
    ensures Flatten(vs) == TrimRight(Join(vs), Separator)
  {
    if |vs| > 0 {
      AccumulatedIsJoin(vs);
      TrimRightAbsorbs(Join(vs), Separator, Separator);
    }
  }

  /** When the last value is non-empty and ends in neither a space nor a comma,
      the flattened string is exactly the values joined with Separator. */
  lemma FlattenOfCleanValues(vs: seq<string>)
    requires |vs| > 0
    requires |vs[|vs| - 1]| > 0 && !EndsIn(vs[|vs| - 1], Separator)
    ensures Flatten(vs) == Join(vs)
  {
    FlattenIsTrimmedJoin(vs);
    var init, last := vs[..|vs| - 1], vs[|vs| - 1];
    if |vs| > 1 {
      assert vs == init + [last];
      JoinSnoc(init, last);
    }
    assert Join(vs)[|Join(vs)| - 1] == last[|last| - 1];
  }

  /** A single value flattens to itself with its trailing spaces and commas
      removed, so a value ending in neither flattens to exactly itself. */
  lemma FlattenSingle(v: string)
    ensures Flatten([v]) == TrimRight(v, Separator)
    ensures !EndsIn(v, Separator) ==> Flatten([v]) == v
  {
    FlattenIsTrimmedJoin([v]);
  }

  /** A header carrying one value that ends in neither a space nor a comma
      flattens to the same header with that value as its single string. */
  lemma FlattenHeaderSingle(name: string, v: string)
    requires !EndsIn(v, Separator)
    ensures FlattenHeader(map[name := [v]]) == map[name := v]
  {
  }

  /** Worked cases: two values join with " ,"; a trailing comma of the last
      value is lost; no values give the empty string. */
  lemma FlattenExamples()
    ensures Flatten(["a", "b"]) == "a ,b"
    ensures Flatten(["a,"]) == "a"
    ensures Flatten(["a", ""]) == "a"
    ensures Flatten([]) == ""
  {
    FlattenOfCleanValues(["a", "b"]);
    assert ["a", "b"][1..] == ["b"];
    FlattenSingle("a,");
    assert TrimRight("a", Separator) == "a";
    FlattenIsTrimmedJoin(["a", ""]);
    assert ["a", ""][1..] == [""];
    assert Join(["a", ""]) == "a ,";
    TrimRightUnique("a ,", Separator, "a");
  }
}

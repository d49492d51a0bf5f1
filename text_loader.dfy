/** The line handling of `Embeddings.create_from_txt_file`, starting from the lines of the
    file already split on whitespace. Float conversion is the parameter `parse`. */
module TextLoader {
  import opened Wrappers

  /** The two parallel lists the loader accumulates: `index` (words) and `vectors`. */
  datatype Table<R> = Table(index: seq<string>, vectors: seq<seq<R>>)

  /** Python's `tokens[1:]`, which is empty rather than an error on an empty list. */
  function Tail(tokens: seq<string>): seq<string> {
    if tokens == [] then [] else tokens[1..]
  }

  /** `[float(s) for s in tokens]`: fails (ValueError) when any token does not parse,
      and otherwise holds the parsed tokens in order. */
  function ParseAll<R>(tokens: seq<string>, parse: string -> Option<R>): (r: Option<seq<R>>)
    ensures r.Some? <==> forall k :: 0 <= k < |tokens| ==> parse(tokens[k]).Some?
    ensures r.Some? ==> |r.value| == |tokens| && forall k :: 0 <= k < |tokens| ==> parse(tokens[k]) == Some(r.value[k])
  {
    if tokens == [] then Some([])
    else
      match parse(tokens[0])
      case None => None
      case Some(x) =>
        match ParseAll(tokens[1..], parse)
        case None => None
        case Some(rest) => Some([x] + rest)
  }

  /** A line after the header that ends up in the store: it has a first token and every
      later token parses. */
  predicate Accepts<R>(line: seq<string>, parse: string -> Option<R>) {
    line != [] && ParseAll(line[1..], parse).Some?
  }

  /** What the loop over `f.readlines()[1:]` produces: the header (line 0) is dropped; a
      line whose numbers do not all parse is skipped; an empty line raises `IndexError`
      at `line.split()[0]`, after its (empty) vector has been parsed; any other line
      appends its word and its vector. */
  function Load<R>(lines: seq<seq<string>>, parse: string -> Option<R>): (r: Result<Table<R>>)
    ensures r.Ok? ==> |r.value.index| == |r.value.vectors|
    ensures r.Err? ==> r.error == IndexError
  {
    if |lines| <= 1 then Ok(Table([], []))
    else
      match Load(lines[..|lines| - 1], parse)
      case Err(e) => Err(e)
      case Ok(t) =>
        var line := lines[|lines| - 1];
        match ParseAll(Tail(line), parse)
        case None => Ok(t)
        case Some(v) =>
          if line == [] then Err(IndexError)
          else Ok(Table(t.index + [line[0]], t.vectors + [v]))
  }

  /** The loop of core.py:45-51, appending in place to `index` and `vectors`. */
  method ReadTxtLines<R>(lines: seq<seq<string>>, parse: string -> Option<R>) returns (r: Result<Table<R>>)
    ensures r == Load(lines, parse)
  {
    var index: seq<string>, vectors: seq<seq<R>> := [], [];
    var i := 1;
    while i < |lines|
      invariant 1 <= i && (|lines| == 0 || i <= |lines|)
      invariant |lines| == 0 ==> index == [] && vectors == []
      invariant |lines| > 0 ==> Load(lines[..i], parse) == Ok(Table(index, vectors))
    {
      var tokens := lines[i];
      assert lines[..i + 1][..i] == lines[..i];
      var parsed := ParseAll(Tail(tokens), parse);
      if parsed.Some? {
        vectors := vectors + [parsed.value];
        if tokens == [] {
          LoadFailsIffBlankLine(lines, parse);
          assert lines[i] == [];
          return Err(IndexError);
        }
        index := index + [tokens[0]];
      }
      i := i + 1;
    }
    if |lines| > 0 {
      assert lines[..i] == lines;
    }
    r := Ok(Table(index, vectors));
  }

  /** Loading fails exactly when some line after the header has no tokens. */
  lemma {:induction false} LoadFailsIffBlankLine<R>(lines: seq<seq<string>>, parse: string -> Option<R>)
    ensures Load(lines, parse).Err? <==> exists j :: 1 <= j < |lines| && lines[j] == []
  {
    if |lines| > 1 {
      var init := lines[..|lines| - 1];
      LoadFailsIffBlankLine(init, parse);
      if exists j :: 1 <= j < |init| && init[j] == [] {
        var j :| 1 <= j < |init| && init[j] == [];
        assert lines[j] == [];
      }
      if exists j :: 1 <= j < |lines| && lines[j] == [] {
        var j :| 1 <= j < |lines| && lines[j] == [];
        if j < |init| {
          assert init[j] == [];
        }
      }
    }
  }

  /** The positions of the accepted lines, in file order. */
  ghost function Kept<R>(lines: seq<seq<string>>, parse: string -> Option<R>): (p: seq<int>)
    ensures forall k :: 0 <= k < |p| ==> 1 <= p[k] < |lines| && Accepts(lines[p[k]], parse)
    ensures forall i, j :: 0 <= i < j < |p| ==> p[i] < p[j]
    ensures forall j :: 1 <= j < |lines| && Accepts(lines[j], parse) ==> j in p
  {
    if |lines| <= 1 then []
    else
      var init := lines[..|lines| - 1];
      var p := Kept(init, parse);
      assert forall j :: 1 <= j < |init| ==> init[j] == lines[j];
      p + (if Accepts(lines[|lines| - 1], parse) then [|lines| - 1] else [])
  }

  /** A successful load is the accepted lines, in file order: entry `k` takes its word
      and its vector from the same line, the `k`-th accepted one. */
  lemma {:induction false} LoadIsKeptLines<R>(lines: seq<seq<string>>, parse: string -> Option<R>)
    requires Load(lines, parse).Ok?
    ensures var t, p := Load(lines, parse).value, Kept(lines, parse);
            |t.index| == |t.vectors| == |p|
            && forall k :: 0 <= k < |p| ==>
                 t.index[k] == lines[p[k]][0] && ParseAll(lines[p[k]][1..], parse) == Some(t.vectors[k])
  {
    if |lines| > 1 {
      var init := lines[..|lines| - 1];
      LoadIsKeptLines(init, parse);
      var p := Kept(init, parse);
      forall k | 0 <= k < |p|
        ensures lines[p[k]] == init[p[k]]
      {
      }
    }
  }

  /** The loader example: a header, one good line, one line with a token that is not a
      number; only "dog" survives. */
  lemma SkipsMalformedLine<R>(parse: string -> Option<R>)
    requires parse("0.1").Some? && parse("0.2").Some? && parse("0.3").Some? && parse("xx").None?
    ensures Load([["2", "3"], ["dog", "0.1", "0.2", "0.3"], ["bad", "0.1", "xx", "0.3"]], parse)
            == Ok(Table(["dog"], [[parse("0.1").value, parse("0.2").value, parse("0.3").value]]))
  {
    var header, good, bad := ["2", "3"], ["dog", "0.1", "0.2", "0.3"], ["bad", "0.1", "xx", "0.3"];
    var x1, x2, x3 := parse("0.1").value, parse("0.2").value, parse("0.3").value;
    var nums := Tail(good);
    assert nums[0] == "0.1" && nums[1] == "0.2" && nums[2] == "0.3";
    assert ParseAll(nums, parse).value == [x1, x2, x3];
    var first := [header, good];
    assert first[..1] == [header] && first[1] == good && good[0] == "dog";
    assert Load(first[..1], parse) == Ok(Table([], []));
    var t := Load(first, parse).value;
    assert t.index == ["dog"] && t.vectors == [[x1, x2, x3]];
    assert Tail(bad)[1] == "xx";
    assert ParseAll(Tail(bad), parse).None?;
    assert [header, good, bad][..2] == [header, good];
  }

  /** A word with no numbers is kept with an empty vector; an empty line fails the load. */
  lemma WordWithoutNumbersAndBlankLine<R>(parse: string -> Option<R>)
    ensures Load([["1", "0"], ["solo"]], parse) == Ok(Table(["solo"], [[]]))
    ensures Load([["1", "0"], ["solo"], []], parse) == Err(IndexError)
  {
    var header, solo: seq<string> := ["1", "0"], ["solo"];
    var first := [header, solo];
    assert first[..1] == [header] && first[1] == solo && solo[0] == "solo";
    assert Load(first[..1], parse) == Ok(Table([], []));
    assert ParseAll(Tail(solo), parse).value == [];
    var t := Load(first, parse).value;
    assert t.index == ["solo"] && t.vectors == [[]];
    assert [header, solo, []][..2] == [header, solo];
  }
}

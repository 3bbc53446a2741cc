/** Paths into nested data: a root-to-leaf sequence of object keys and array indices. */
module Paths {
  import opened Wrappers
  import opened JavaLang

  /** `KeyPathNode` and `IndexPathNode`. Equality is structural, and a key never equals an index. */
  datatype PathNode = Key(name: string) | Index(position: int32)
  {
    /** `stringify()` (and `toString()`): a key is its name, an index is `[n]`. */
    function Stringify(): (s: string)
      ensures Key? ==> s == name
      ensures Index? ==> |s| >= 3 && s[0] == '[' && s[|s| - 1] == ']'
      ensures Index? ==> ParseInt32(s[1..|s| - 1]) == Some(position)
      ensures Index? && position >= 0 ==> AllDigits(s[1..|s| - 1]) && (|s| == 3 || s[1] != '0')
    {
      match this
      case Key(k) => k
      case Index(i) =>
        DecimalRoundTrip(i);
        var s := "[" + DecimalString(i as int) + "]";
        assert s[1..|s| - 1] == DecimalString(i as int);
        s
    }
  }

  /** `Paths.Path`: an immutable list of nodes. Every operation returns a new path. */
  datatype Path = Path(nodes: seq<PathNode>)
  {
    /** `andThen(int)`: the receiver's nodes, then one index node. */
    function AndThenIndex(index: int32): (r: Path)
      ensures |r.nodes| == |nodes| + 1 && r.nodes[..|nodes|] == nodes
      ensures r.nodes[|nodes|] == Index(index)
    {
      Path(nodes + [Index(index)])
    }

    /** `andThen(String)`: the receiver's nodes, then one key node. */
    function AndThenKey(key: string): (r: Path)
      ensures |r.nodes| == |nodes| + 1 && r.nodes[..|nodes|] == nodes
      ensures r.nodes[|nodes|] == Key(key)
    {
      Path(nodes + [Key(key)])
    }

    /** `atIndex(int)`, a synonym of `andThen(int)`. */
    function AtIndex(idx: int32): (r: Path)
      ensures r == AndThenIndex(idx)
      ensures r.nodes == nodes + [Index(idx)]
    {
      AndThenIndex(idx)
    }

    /** `field(String)`, a synonym of `andThen(String)`. */
    function Field(k: string): (r: Path)
      ensures r == AndThenKey(k)
      ensures r.nodes == nodes + [Key(k)]
    {
      AndThenKey(k)
    }

    /** `compose(Path)`: the receiver's nodes first, then all of `other`'s. */
    function Compose(other: Path): (r: Path)
      ensures |r.nodes| == |nodes| + |other.nodes|
      ensures r.nodes[..|nodes|] == nodes && r.nodes[|nodes|..] == other.nodes
    {
      Path(nodes + other.nodes)
    }

    /** `toString()`: `/` for the empty path, otherwise `/ ` and the nodes joined by ` / `. */
    function ToString(): (s: string)
      ensures |s| >= 1 && s[0] == '/'
      ensures |nodes| == 0 <==> s == "/"
      ensures |nodes| > 0 ==> |s| >= 2 && s[..2] == "/ "
      ensures |nodes| == 1 ==> s == "/ " + nodes[0].Stringify()
    {
      if |nodes| == 0 then "/"
      else
        var parts := Renderings(nodes);
        assert |nodes| == 1 ==> parts == [nodes[0].Stringify()];
        "/ " + JoinWith(parts, " / ")
    }

    /** `equals(Object)` between two paths. */
    predicate Equals(other: Path)
    {
      nodes == other.nodes
    }
  }

  /** `Paths.Root`, the empty path. */
  const Root: Path := Path([])

  function Renderings(nodes: seq<PathNode>): (r: seq<string>)
    ensures |r| == |nodes|
    ensures forall i :: 0 <= i < |nodes| ==> r[i] == nodes[i].Stringify()
  {
    if |nodes| == 0 then [] else [nodes[0].Stringify()] + Renderings(nodes[1..])
  }

  // ---------------------------------------------------------------------------
  // The path algebra

  /** `Root` is a left and a right identity of `compose`. */
  lemma ComposeIdentity(p: Path)
    ensures Root.Compose(p) == p && p.Compose(Root) == p
  {
    assert p.nodes + [] == p.nodes;
  }

  /** `compose` is associative. */
  lemma ComposeAssociative(p: Path, q: Path, r: Path)
    ensures p.Compose(q).Compose(r) == p.Compose(q.Compose(r))
  {
    assert (p.nodes + q.nodes) + r.nodes == p.nodes + (q.nodes + r.nodes);
  }

  /** Appending one node is composing with the one-node path. */
  lemma AndThenIsCompose(p: Path, key: string, index: int32)
    ensures p.AndThenKey(key) == p.Compose(Root.Field(key))
    ensures p.AndThenIndex(index) == p.Compose(Root.AtIndex(index))
  {
  }

  /** Path equality is node-by-node equality, so `equals` agrees with structural equality. */
  lemma EqualsIsStructural(p: Path, q: Path)
    ensures p.Equals(q) <==> p == q
    ensures p.Equals(q) <==> |p.nodes| == |q.nodes| && forall i :: 0 <= i < |p.nodes| ==> p.nodes[i] == q.nodes[i]
  {
  }

  /** A key and an index can render alike, but are never equal. */
  lemma KeyIsNeverIndex()
    ensures Key("[2]").Stringify() == Index(2).Stringify()
    ensures Key("[2]") != Index(2)
    ensures Root.Field("[2]") != Root.AtIndex(2)
  {
    assert DecimalString(2) == "2";
  }

  lemma RenderingsAppend(a: seq<PathNode>, b: seq<PathNode>)
    ensures Renderings(a + b) == Renderings(a) + Renderings(b)
  {
  }

  /** Rendering a composition: the renderings of both paths' nodes, in order, one separator between. */
  lemma ToStringCompose(p: Path, q: Path)
    requires |p.nodes| > 0 && |q.nodes| > 0
    ensures p.Compose(q).ToString() == p.ToString() + " / " + q.ToString()[2..]
  {
    RenderingsAppend(p.nodes, q.nodes);
    JoinWithAppend(Renderings(p.nodes), Renderings(q.nodes), " / ");
  }

  /** The renderings exercised by the path tests: keys, an index, and a composition. */
  lemma ToStringFieldExample()
    ensures Root.ToString() == "/"
    ensures Root.Field("user").Field("name").ToString() == "/ user / name"
  {
    RenderTwoKeys("user", "name");
  }

  lemma ToStringIndexExample()
    ensures Root.Field("users").AtIndex(2).ToString() == "/ users / [2]"
  {
    RenderUsersTwo();
  }

  lemma ToStringComposeExample(a: string, i: int32, b: string, c: string)
    ensures Root.Field(a).AtIndex(i).Compose(Root.Field(b).Field(c)).ToString()
         == "/ " + a + " / " + Index(i).Stringify() + " / " + b + " / " + c
  {
    var p := Root.Field(a).AtIndex(i);
    var q := Root.Field(b).Field(c);
    var x := Index(i).Stringify();
    assert p.nodes == [Key(a), Index(i)];
    assert Renderings(p.nodes) == [a, x];
    JoinWithCons(a, [x], " / ");
    assert p.ToString() == "/ " + (a + " / " + x);
    RenderTwoKeys(b, c);
    SkipSlash(b + " / " + c);
    assert q.ToString()[2..] == b + " / " + c;
    ToStringCompose(p, q);
    ConcatFive("/ ", a, x, b, c, " / ");
  }

  lemma ConcatFive(h: string, a: string, x: string, b: string, c: string, sep: string)
    ensures h + (a + sep + x) + sep + (b + sep + c) == h + a + sep + x + sep + b + sep + c
  {
  }

  lemma SkipSlash(s: string)
    ensures ("/ " + s)[2..] == s
  {
  }

  lemma RenderTwoKeys(a: string, b: string)
    ensures Root.Field(a).Field(b).ToString() == "/ " + a + " / " + b
  {
    var p := Root.Field(a).Field(b);
    assert p.nodes == [Key(a), Key(b)];
    assert Renderings(p.nodes) == [a, b];
    assert JoinWith([a, b], " / ") == a + " / " + JoinWith([b], " / ");
  }

  lemma RenderUsersTwo()
    ensures Root.Field("users").AtIndex(2).ToString() == "/ users / [2]"
  {
    IndexTwoRendering();
    var users := Root.Field("users").AtIndex(2);
    assert users.nodes == [Key("users"), Index(2)];
    assert Renderings(users.nodes) == ["users", "[2]"];
  }

  lemma IndexTwoRendering()
    ensures Index(2).Stringify() == "[2]"
  {
    assert DecimalString(2) == "2";
  }

  // ---------------------------------------------------------------------------
  // Parsing a dotted/bracket expression

  predicate NoLineTerminator(s: string) {
    forall i :: 0 <= i < |s| ==> !IsLineTerminator(s[i])
  }

  /** `fieldArraySelector`, `(.+)\[(\d)+\]`, matched against the whole segment: a non-empty
      field without line terminators, `[`, at least one digit, `]`. */
  predicate MatchesFieldArray(part: string) {
    && |part| > 0
    && part[|part| - 1] == ']'
    && exists k | 1 <= k < |part| - 2 :: FieldArrayAt(part, k)
  }

  /** The `[` at position `k` separates the field from the digits of `field[digits]`. */
  predicate FieldArrayAt(part: string, k: int)
    requires 1 <= k < |part| - 2
  {
    part[k] == '[' && AllDigits(part[k + 1..|part| - 1]) && NoLineTerminator(part[..k])
  }

  /** `part.startsWith("[")` and `arraySelector`, `\[(\d)+\]`, matched against the whole segment. */
  predicate MatchesArray(part: string) {
    |part| >= 3 && part[0] == '[' && part[|part| - 1] == ']' && AllDigits(part[1..|part| - 1])
  }

  /** The nodes one dot-separated segment contributes, or `None` where the source raises an
      exception (an index that `Integer.valueOf` rejects). */
  function ParseSegment(part: string): Option<seq<PathNode>> {
    if MatchesFieldArray(part) then
      var subParts := Split(part, '[');
      if |subParts| < 2 then None
      else
        match ParseInt32(RemoveAll(subParts[1], ']'))
        case None => None
        case Some(index) => Some([Key(subParts[0]), Index(index)])
    else if MatchesArray(part) then
      match ParseInt32(RemoveAll(RemoveAll(part, '['), ']'))
      case None => None
      case Some(index) => Some([Index(index)])
    else
      Some([Key(part)])
  }

  /** The nodes of all segments in order, or `None` as soon as one segment raises. */
  function ParseParts(parts: seq<string>): Option<seq<PathNode>> {
    if |parts| == 0 then Some([])
    else
      match ParseParts(parts[..|parts| - 1])
      case None => None
      case Some(prefix) =>
        match ParseSegment(parts[|parts| - 1])
        case None => None
        case Some(nodes) => Some(prefix + nodes)
  }

  /** `Paths.parse(query)`: split on `.`, parse each segment; any exception (a null query,
      a bad index) gives `Root`. */
  function Parsed(query: Option<string>): Path {
    match query
    case None => Root
    case Some(q) =>
      match ParseParts(Split(q, '.'))
      case None => Root
      case Some(nodes) => Path(nodes)
  }

  /** `Paths.parse`, as the source runs it: one pass over the segments that appends to a local
      list, and a catch-all that answers `Root`. */
  method Parse(query: Option<string>) returns (p: Path)
    ensures p == Parsed(query)
  {
    if query.None? {
      return Root;  // splitting null raises NullPointerException
    }
    var parts := Split(query.value, '.');
    var pathes: seq<PathNode> := [];
    for i := 0 to |parts|
      invariant ParseParts(parts[..i]) == Some(pathes)
    {
      var part := parts[i];
      assert parts[..i + 1][..i] == parts[..i];
      if MatchesFieldArray(part) {
        var subParts := Split(part, '[');
        if |subParts| < 2 {
          ParsePartsNoneExtends(parts, i + 1);
          return Root;
        }
        var index := ParseInt32(RemoveAll(subParts[1], ']'));
        if index.None? {
          ParsePartsNoneExtends(parts, i + 1);
          return Root;
        }
        pathes := pathes + [Key(subParts[0]), Index(index.value)];
      } else if MatchesArray(part) {
        var index := ParseInt32(RemoveAll(RemoveAll(part, '['), ']'));
        if index.None? {
          ParsePartsNoneExtends(parts, i + 1);
          return Root;
        }
        pathes := pathes + [Index(index.value)];
      } else {
        pathes := pathes + [Key(part)];
      }
    }
    assert parts[..|parts|] == parts;
    p := Path(pathes);
  }

  /** Once a prefix of the segments raises, the whole parse raises. */
  lemma {:induction false} ParsePartsNoneExtends(parts: seq<string>, i: nat)
    requires i <= |parts| && ParseParts(parts[..i]) == None
    ensures ParseParts(parts) == None
    decreases |parts| - i
  {
    if i < |parts| {
      assert parts[..i + 1][..i] == parts[..i];
      ParsePartsNoneExtends(parts, i + 1);
    } else {
      assert parts[..i] == parts;
    }
  }

  /** The parse of a list of segments raises exactly when one of the segments does. */
  lemma {:induction false} ParsePartsNoneIff(parts: seq<string>)
    ensures ParseParts(parts) == None <==> exists i :: 0 <= i < |parts| && ParseSegment(parts[i]) == None
  {
    if |parts| > 0 {
      var init := parts[..|parts| - 1];
      ParsePartsNoneIff(init);
      if ParseParts(init) == None {
        var i :| 0 <= i < |init| && ParseSegment(init[i]) == None;
        assert ParseSegment(parts[i]) == None;
      } else if ParseParts(parts) != None {
        forall i | 0 <= i < |parts| ensures ParseSegment(parts[i]) != None {
          if i < |parts| - 1 {
            assert parts[i] == init[i];
          }
        }
      }
    }
  }

  /** `parse` never raises: a null query, or any segment that raises, yields `Root`. */
  lemma ParseFaultIsRoot(query: Option<string>)
    requires query.None? || exists i :: 0 <= i < |Split(query.value, '.')| && ParseSegment(Split(query.value, '.')[i]) == None
    ensures Parsed(query) == Root
  {
    if query.Some? {
      ParsePartsNoneIff(Split(query.value, '.'));
    }
  }

  /** How many segments have the `field[digits]` form. */
  function FieldArrayCount(parts: seq<string>): nat {
    if |parts| == 0 then 0
    else FieldArrayCount(parts[..|parts| - 1]) + (if MatchesFieldArray(parts[|parts| - 1]) then 1 else 0)
  }

  /** A segment that does not raise contributes two nodes when it is `field[digits]`, else one. */
  lemma ParseSegmentLength(part: string)
    requires ParseSegment(part).Some?
    ensures |ParseSegment(part).value| == if MatchesFieldArray(part) then 2 else 1
  {
  }

  /** A parse that does not raise has one node per segment, plus one per `field[digits]` segment. */
  lemma {:induction false} ParsePartsLength(parts: seq<string>)
    requires ParseParts(parts).Some?
    ensures |ParseParts(parts).value| == |parts| + FieldArrayCount(parts)
  {
    if |parts| > 0 {
      ParsePartsLength(parts[..|parts| - 1]);
      ParseSegmentLength(parts[|parts| - 1]);
    }
  }

  /** A segment with no `[` is a key, whatever else it holds. */
  lemma ParseKeySegment(name: string)
    requires '[' !in name
    ensures ParseSegment(name) == Some([Key(name)])
  {
    assert !MatchesFieldArray(name);
  }

  lemma RemoveAllAppend(a: string, b: string, c: char)
    ensures RemoveAll(a + b, c) == RemoveAll(a, c) + RemoveAll(b, c)
  {
    if |a| > 0 {
      assert (a + b)[1..] == a[1..] + b;
      RemoveAllAppend(a[1..], b, c);
    } else {
      assert a + b == b;
    }
  }

  /** A segment with no `[` after its first character is not of the `field[digits]` form. */
  lemma NotFieldArray(part: string)
    requires forall k :: 1 <= k < |part| ==> part[k] != '['
    ensures !MatchesFieldArray(part)
  {
  }

  lemma DigitsHaveNoBrackets(digits: string)
    requires AllDigits(digits)
    ensures '[' !in digits && ']' !in digits
  {
  }

  lemma RemoveBrackets(digits: string)
    requires AllDigits(digits)
    ensures RemoveAll(RemoveAll("[" + digits + "]", '['), ']') == digits
  {
    DigitsHaveNoBrackets(digits);
    RemoveAllAppend("[" + digits, "]", '[');
    RemoveAllAppend("[", digits, '[');
    RemoveAllAbsent(digits, '[');
    assert RemoveAll("[", '[') == "";
    assert RemoveAll("]", '[') == "]";
    assert RemoveAll("[" + digits + "]", '[') == digits + "]";
    RemoveAllAppend(digits, "]", ']');
    RemoveAllAbsent(digits, ']');
    assert RemoveAll("]", ']') == "";
  }

  /** Splitting `field[rest` on `[` when neither part holds a `[`. */
  lemma SplitAtBracket(field: string, rest: string)
    requires '[' !in field && '[' !in rest && |rest| > 0
    ensures Split(field + "[" + rest, '[') == [field, rest]
  {
    var part := field + "[" + rest;
    assert part == field + ['['] + rest;
    PiecesPrefix(field, rest, '[');
    PiecesOfPlain(rest, '[');
    assert part[|field|] == '[';
  }

  /** `[n]` is an index node. */
  lemma ParseIndexSegment(index: int32)
    requires index >= 0
    ensures ParseSegment("[" + DecimalString(index as int) + "]") == Some([Index(index)])
  {
    var digits := DecimalString(index as int);
    var part := "[" + digits + "]";
    forall k | 1 <= k < |part| ensures part[k] != '[' {
      if k < |part| - 1 {
        assert part[k] == digits[k - 1];
      }
    }
    NotFieldArray(part);
    assert part[1..|part| - 1] == digits;
    assert MatchesArray(part);
    RemoveBrackets(digits);
    DecimalRoundTrip(index);
  }

  /** `field[n]` is a key node followed by an index node. */
  lemma ParseFieldIndexSegment(field: string, index: int32)
    requires |field| > 0 && '[' !in field && NoLineTerminator(field)
    requires index >= 0
    ensures ParseSegment(field + "[" + DecimalString(index as int) + "]") == Some([Key(field), Index(index)])
  {
    DecimalRoundTrip(index);
    FieldDigitsSegment(field, DecimalString(index as int), index);
  }

  lemma FieldDigitsSegment(field: string, digits: string, index: int32)
    requires |field| > 0 && '[' !in field && NoLineTerminator(field)
    requires |digits| > 0 && AllDigits(digits) && ParseInt32(digits) == Some(index)
    ensures ParseSegment(field + "[" + digits + "]") == Some([Key(field), Index(index)])
  {
    var part := field + "[" + digits + "]";
    FieldDigitsMatch(field, digits);
    FieldDigitsSplit(field, digits);
  }

  lemma FieldDigitsMatch(field: string, digits: string)
    requires |field| > 0 && NoLineTerminator(field) && |digits| > 0 && AllDigits(digits)
    ensures MatchesFieldArray(field + "[" + digits + "]")
  {
    var part := field + "[" + digits + "]";
    var k := |field|;
    assert part[k + 1..|part| - 1] == digits && part[..k] == field;
    assert FieldArrayAt(part, k);
  }

  lemma FieldDigitsSplit(field: string, digits: string)
    requires '[' !in field && |digits| > 0 && AllDigits(digits)
    ensures Split(field + "[" + digits + "]", '[') == [field, digits + "]"]
    ensures RemoveAll(digits + "]", ']') == digits
  {
    DigitsHaveNoBrackets(digits);
    assert field + "[" + digits + "]" == field + "[" + (digits + "]");
    SplitAtBracket(field, digits + "]");
    RemoveAllAppend(digits, "]", ']');
    RemoveAllAbsent(digits, ']');
    assert RemoveAll("]", ']') == "";
  }

  /** An expression shaped like `users[2].address.street`: a field with an index, then two
      keys, parses to the four nodes in order. */
  lemma ParseExample(field: string, index: int32, key1: string, key2: string)
    requires |field| > 0 && '[' !in field && '.' !in field && NoLineTerminator(field)
    requires index >= 0
    requires '[' !in key1 && '.' !in key1
    requires |key2| > 0 && '[' !in key2 && '.' !in key2
    ensures Parsed(Some(field + "[" + DecimalString(index as int) + "]." + key1 + "." + key2))
         == Path([Key(field), Index(index), Key(key1), Key(key2)])
  {
    var digits := DecimalString(index as int);
    var first := field + "[" + digits + "]";
    var q := field + "[" + digits + "]." + key1 + "." + key2;
    DigitsHaveNoDot(digits);
    SplitThree(first, key1, key2);
    assert first + "." + key1 + "." + key2 == q;
    ParseFieldIndexSegment(field, index);
    ParseKeySegment(key1);
    ParseKeySegment(key2);
    ParseThreeParts(first, key1, key2);
    ParsedOfParts(q, [Key(field), Index(index)] + [Key(key1)] + [Key(key2)]);
  }

  lemma DigitsHaveNoDot(digits: string)
    requires AllDigits(digits)
    ensures '.' !in digits
  {
  }

  /** Three dot-free segments joined by dots split back into the three. */
  lemma SplitThree(x: string, y: string, z: string)
    requires '.' !in x && '.' !in y && '.' !in z && |z| > 0
    ensures Split(x + "." + y + "." + z, '.') == [x, y, z]
  {
    var segs := [x, y, z];
    assert JoinWith(segs[2..], ".") == z;
    assert JoinWith(segs[1..], ".") == y + "." + z;
    assert JoinWith(segs, ".") == x + "." + (y + "." + z);
    assert x + "." + (y + "." + z) == x + "." + y + "." + z;
    PiecesOfJoin(segs, '.');
    assert (x + "." + y + "." + z)[|x|] == '.';
  }

  lemma ParsedOfParts(q: string, nodes: seq<PathNode>)
    requires ParseParts(Split(q, '.')) == Some(nodes)
    ensures Parsed(Some(q)) == Path(nodes)
  {
  }

  lemma ParseThreeParts(x: string, y: string, z: string)
    requires ParseSegment(x).Some? && ParseSegment(y).Some? && ParseSegment(z).Some?
    ensures ParseParts([x, y, z]) == Some(ParseSegment(x).value + ParseSegment(y).value + ParseSegment(z).value)
  {
    var a, b := ParseSegment(x).value, ParseSegment(y).value;
    ParsePartsSnoc([], x);
    assert [] + [x] == [x];
    assert ParseParts([]) == Some([]);
    assert [] + a == a;
    assert ParseParts([x]) == Some(a);
    ParsePartsSnoc([x], y);
    assert [x] + [y] == [x, y];
    assert ParseParts([x, y]) == Some(a + b);
    ParsePartsSnoc([x, y], z);
    assert [x, y] + [z] == [x, y, z];
  }

  /** Parsing one more segment appends its nodes. */
  lemma ParsePartsSnoc(parts: seq<string>, part: string)
    ensures ParseParts(parts + [part]) ==
      if ParseParts(parts).None? || ParseSegment(part).None? then None
      else Some(ParseParts(parts).value + ParseSegment(part).value)
  {
    assert (parts + [part])[..|parts|] == parts;
  }

  /** Quirks of the source's parser: the empty expression is one empty key, and a lone dot
      (every segment empty) is `Root`. */
  lemma ParseEdgeCases()
    ensures Parsed(Some("")) == Path([Key("")])
    ensures Parsed(Some(".")) == Root
    ensures Parsed(None) == Root
  {
    assert Split("", '.') == [""];
    ParseKeySegment("");
    assert Pieces(".", '.') == ["", ""];
    assert Split(".", '.') == [];
  }

  /** An index that does not fit in 32 bits makes `Integer.valueOf` raise, so the whole
      expression parses to `Root`. */
  lemma ParseIndexOverflow(digits: string)
    requires |digits| > 0 && AllDigits(digits) && DigitsValue(digits) >= 0x8000_0000
    ensures ParseSegment("[" + digits + "]") == None
    ensures Parsed(Some("[" + digits + "]")) == Root
  {
    var part := "[" + digits + "]";
    OverflowSegment(digits);
    DigitsHaveNoDot(digits);
    assert '.' !in part by {
      forall k | 0 <= k < |part| ensures part[k] != '.' {
        if 0 < k < |part| - 1 {
          assert part[k] == digits[k - 1];
        }
      }
    }
    assert Split(part, '.') == [part];
    ParseFaultIsRoot(Some(part));
  }

  lemma OverflowSegment(digits: string)
    requires |digits| > 0 && AllDigits(digits) && DigitsValue(digits) >= 0x8000_0000
    ensures ParseSegment("[" + digits + "]") == None
  {
    var part := "[" + digits + "]";
    forall k | 1 <= k < |part| ensures part[k] != '[' {
      if k < |part| - 1 {
        assert part[k] == digits[k - 1];
      }
    }
    NotFieldArray(part);
    assert part[1..|part| - 1] == digits;
    assert MatchesArray(part);
    RemoveBrackets(digits);
    OverflowDigits(digits);
  }

  lemma OverflowDigits(digits: string)
    requires |digits| > 0 && AllDigits(digits) && DigitsValue(digits) >= 0x8000_0000
    ensures ParseInt32(digits) == None
  {
    assert IsDigit(digits[0]);
  }
}

/**
 The record normalisation of textgraphai/core.py: the property-key naming
 convention, the folding of property lists into maps, and the mapping of
 extracted nodes and relationships onto graph-store records.
 */
module GraphCore {
  import opened Wrappers
  import opened Casing
  import opened Words

  /** An extracted key/value property. */
  datatype Property = Property(key: string, value: string)

  /** An extracted node; `kind` stands for the record's `type` field (a Dafny keyword). Its property list is optional. */
  datatype Node = Node(id: string, kind: string, properties: Option<seq<Property>>)

  /**
   The graph library's own node record. Normalised nodes are built as this
   record, and the endpoints of an extracted relationship arrive as it too:
   their properties are already a map, possibly empty.
   */
  datatype BaseNode = BaseNode(id: string, kind: string, properties: map<string, string>)

  /**
   An extracted relationship. Only its own property list is redeclared as a
   list of `Property`; its endpoints keep the graph library's node record.
   */
  datatype Relationship = Relationship(source: BaseNode, target: BaseNode, kind: string, properties: Option<seq<Property>>)

  /** The graph-store relationship record. */
  datatype BaseRelationship = BaseRelationship(source: BaseNode, target: BaseNode, kind: string, properties: map<string, string>)

  /**
   The error raised when `props_to_dict` is handed a non-empty map: iterating
   it yields the string keys, and reading `.key` from a string fails.
   */
  datatype MappingError = AttributeError

  /** The key every normalised node carries its own id under. */
  const NameKey: string := "name"

  /** Lower-casing the capitalised words and concatenating them gives the lower-cased words concatenated. */
  lemma {:induction false} LowerCapitalizedWords(ws: seq<string>)
    ensures Lower(Concat(CapitalizeEach(ws))) == Lower(Concat(ws))
    decreases |ws|
  {
    if ws != [] {
      var head := Capitalize(ws[0]);
      var rest := Concat(CapitalizeEach(ws[1..]));
      assert CapitalizeEach(ws)[1..] == CapitalizeEach(ws[1..]);
      assert Concat(CapitalizeEach(ws)) == head + rest;
      assert Concat(ws) == ws[0] + Concat(ws[1..]);
      LowerCapitalizedWords(ws[1..]);
      LowerAppend(head, rest);
      LowerAppend(ws[0], Concat(ws[1..]));
    }
  }

  /** Capitalising words never introduces whitespace. */
  lemma {:induction false} CapitalizedNoSpace(ws: seq<string>)
    requires AllWords(ws)
    ensures NoSpace(Concat(CapitalizeEach(ws)))
    decreases |ws|
  {
    if ws != [] {
      var head := Capitalize(ws[0]);
      var rest := Concat(CapitalizeEach(ws[1..]));
      assert CapitalizeEach(ws)[1..] == CapitalizeEach(ws[1..]);
      assert Concat(CapitalizeEach(ws)) == head + rest;
      assert AllWords(ws[1..]) by {
        assert forall i :: 0 <= i < |ws| - 1 ==> ws[1..][i] == ws[i + 1];
      }
      CapitalizedNoSpace(ws[1..]);
      NoSpaceCaseFree(ws[0], head);
      NoSpaceAppend(head, rest);
    }
  }

  /** Case mapping never turns a character into whitespace or back. */
  lemma NoSpaceCaseFree(a: string, b: string)
    requires NoSpace(a) && Lower(a) == Lower(b)
    ensures NoSpace(b)
  {
    assert |a| == |Lower(a)| == |b|;
    forall i | 0 <= i < |b|
      ensures !IsSpace(b[i])
    {
      assert Lower(a)[i] == Lower(b)[i];
      CharCase(a[i], b[i]);
      assert ToLower(b[i]) == ToLower(a[i]);
    }
  }

  lemma NoSpaceAppend(a: string, b: string)
    requires NoSpace(a) && NoSpace(b)
    ensures NoSpace(a + b)
  {
  }

  function CapitalizeEach(ws: seq<string>): (r: seq<string>)
    ensures |r| == |ws|
  {
    seq(|ws|, i requires 0 <= i < |ws| => Capitalize(ws[i]))
  }

  /**
   `r` is the words `ws` written one after another, each capitalised:
   every segment agrees with its word up to case and is itself capitalised.
   */
  predicate CamelSegments(r: string, ws: seq<string>)
    decreases |ws|
  {
    if ws == [] then r == []
    else
      var n := |ws[0]|;
      && n <= |r|
      && IsCapitalized(r[..n])
      && Lower(r[..n]) == Lower(ws[0])
      && CamelSegments(r[n..], ws[1..])
  }

  /** Capitalising each word and concatenating meets the segment description. */
  lemma {:induction false} CapitalizedSegments(ws: seq<string>)
    ensures CamelSegments(Concat(CapitalizeEach(ws)), ws)
    decreases |ws|
  {
    if ws != [] {
      var head := Capitalize(ws[0]);
      var rest := Concat(CapitalizeEach(ws[1..]));
      assert CapitalizeEach(ws)[1..] == CapitalizeEach(ws[1..]);
      assert Concat(CapitalizeEach(ws)) == head + rest;
      assert |head| == |Lower(head)| == |ws[0]|;
      assert (head + rest)[..|ws[0]|] == head;
      assert (head + rest)[|ws[0]|..] == rest;
      CapitalizedSegments(ws[1..]);
    }
  }

  /**
   `format_property_key`: a key with no words is returned unchanged;
   otherwise its words are glued together with no separator, the first
   lower-cased and every later one capitalised (camelCase).
   */
  function FormatPropertyKey(s: string): (r: string)
    ensures Split(s) == [] ==> r == s
    ensures Split(s) != [] ==>
      && IsWord(r)
      && Lower(r) == Lower(Concat(Split(s)))
      && r[..|Split(s)[0]|] == Lower(Split(s)[0])
      && CamelSegments(r[|Split(s)[0]|..], Split(s)[1..])
  {
    var words := Split(s);
    if words == [] then s
    else
      var first := Lower(words[0]);
      var rest := Concat(CapitalizeEach(words[1..]));
      assert AllWords(words[1..]) by {
        assert forall i :: 0 <= i < |words| - 1 ==> words[1..][i] == words[i + 1];
      }
      LowerCapitalizedWords(words[1..]);
      CapitalizedNoSpace(words[1..]);
      LowerIsLowered(words[0]);
      NoSpaceCaseFree(words[0], first);
      NoSpaceAppend(first, rest);
      LowerAppend(first, rest);
      LowerAppend(words[0], Concat(words[1..]));
      assert Concat(words) == words[0] + Concat(words[1..]);
      assert (first + rest)[..|words[0]|] == first;
      assert (first + rest)[|words[0]|..] == rest;
      CapitalizedSegments(words[1..]);
      first + rest
  }

  /** The formatted keys of a property list. */
  function FormattedKeys(ps: seq<Property>): set<string>
  {
    set i | 0 <= i < |ps| :: FormatPropertyKey(ps[i].key)
  }

  /** No property after position `i` formats to the same key as the one at `i`. */
  predicate LastWithKey(ps: seq<Property>, i: int)
    requires 0 <= i < |ps|
  {
    forall j :: i < j < |ps| ==> FormatPropertyKey(ps[j].key) != FormatPropertyKey(ps[i].key)
  }

  /** Each property as the entry the loop of `props_to_dict` stores. */
  function Entries(ps: seq<Property>): (kvs: seq<(string, string)>)
    ensures |kvs| == |ps|
  {
    seq(|ps|, i requires 0 <= i < |ps| => (FormatPropertyKey(ps[i].key), ps[i].value))
  }

  function EntryKeys(kvs: seq<(string, string)>): set<string>
  {
    set i | 0 <= i < |kvs| :: kvs[i].0
  }

  predicate LastEntry(kvs: seq<(string, string)>, i: int)
    requires 0 <= i < |kvs|
  {
    forall j :: i < j < |kvs| ==> kvs[j].0 != kvs[i].0
  }

  lemma EntryKeysSnoc(init: seq<(string, string)>, kv: (string, string))
    ensures EntryKeys(init + [kv]) == EntryKeys(init) + {kv.0}
  {
    var kvs := init + [kv];
    forall k | k in EntryKeys(kvs)
      ensures k in EntryKeys(init) + {kv.0}
    {
      var i :| 0 <= i < |kvs| && kvs[i].0 == k;
      if i < |init| {
        assert kvs[i] == init[i];
      }
    }
    forall k | k in EntryKeys(init)
      ensures k in EntryKeys(kvs)
    {
      var i :| 0 <= i < |init| && init[i].0 == k;
      assert kvs[i] == init[i];
    }
    assert kvs[|init|] == kv;
  }

  /**
   Storing entries one after another, as the loop of `props_to_dict` does:
   every key is present, each with the value of its last entry.
   */
  function StoreAll(kvs: seq<(string, string)>): (m: map<string, string>)
    ensures m.Keys == EntryKeys(kvs)
    ensures forall i :: 0 <= i < |kvs| && LastEntry(kvs, i) ==> m[kvs[i].0] == kvs[i].1
    decreases |kvs|
  {
    if kvs == [] then map[]
    else
      var init := kvs[..|kvs| - 1];
      var kv := kvs[|kvs| - 1];
      assert kvs == init + [kv];
      EntryKeysSnoc(init, kv);
      assert forall i :: 0 <= i < |init| && LastEntry(kvs, i) ==> LastEntry(init, i) by {
        assert forall i :: 0 <= i < |init| ==> init[i] == kvs[i];
      }
      StoreAll(init)[kv.0 := kv.1]
  }

  /** The entries of a property list carry its formatted keys and its last-wins positions. */
  lemma EntriesKeys(ps: seq<Property>)
    ensures EntryKeys(Entries(ps)) == FormattedKeys(ps)
    ensures forall i :: 0 <= i < |ps| && LastWithKey(ps, i) ==> LastEntry(Entries(ps), i)
  {
    var kvs := Entries(ps);
    assert forall i :: 0 <= i < |ps| ==> kvs[i].0 == FormatPropertyKey(ps[i].key);
    forall k | k in FormattedKeys(ps)
      ensures k in EntryKeys(kvs)
    {
      var i :| 0 <= i < |ps| && FormatPropertyKey(ps[i].key) == k;
      assert kvs[i].0 == k;
    }
  }

  /** The property list an optional list stands for. */
  function PropertyList(props: Option<seq<Property>>): seq<Property>
  {
    if props.None? then [] else props.value
  }

  /**
   `props_to_dict`: an empty map for no list or an empty one; otherwise a
   map whose keys are exactly the formatted keys of the list, where a later
   property wins over an earlier one that formats to the same key.
   */
  function PropsToDict(props: Option<seq<Property>>): (m: map<string, string>)
    ensures props.None? || props == Some([]) ==> m == map[]
    ensures m.Keys == FormattedKeys(PropertyList(props))
    ensures var ps := PropertyList(props);
      forall i :: 0 <= i < |ps| && LastWithKey(ps, i) ==> m[FormatPropertyKey(ps[i].key)] == ps[i].value
  {
    if props.None? || props.value == [] then map[]
    else
      EntriesKeys(props.value);
      StoreAll(Entries(props.value))
  }

  /**
   `map_to_base_node`: the id title-cased, the type capitalised, the
   properties folded into a map, and the title-cased id stored under
   "name", replacing any extracted "name" property.
   */
  function MapToBaseNode(node: Node): (r: BaseNode)
    ensures IsTitled(r.id) && Lower(r.id) == Lower(node.id)
    ensures IsCapitalized(r.kind) && Lower(r.kind) == Lower(node.kind)
    ensures r.properties.Keys == FormattedKeys(PropertyList(node.properties)) + {NameKey}
    ensures r.properties[NameKey] == r.id
    ensures var ps := PropertyList(node.properties);
      forall i :: 0 <= i < |ps| && LastWithKey(ps, i) && FormatPropertyKey(ps[i].key) != NameKey ==>
        r.properties[FormatPropertyKey(ps[i].key)] == ps[i].value
  {
    var properties := if node.properties.Some? && node.properties.value != [] then PropsToDict(node.properties) else map[];
    var id := Title(node.id);
    BaseNode(id, Capitalize(node.kind), properties[NameKey := id])
  }

  /**
   `map_to_base_node` applied to a relationship endpoint: a non-empty
   property map is passed to `props_to_dict`, which fails on it; an empty one
   is skipped, and the endpoint is normalised as an extracted node without
   properties would be.
   */
  function MapEndpoint(node: BaseNode): (r: Result<BaseNode, MappingError>)
    ensures r.Failure? <==> node.properties != map[]
    ensures r.Success? ==>
      && IsTitled(r.value.id) && Lower(r.value.id) == Lower(node.id)
      && IsCapitalized(r.value.kind) && Lower(r.value.kind) == Lower(node.kind)
      && r.value.properties == map[NameKey := r.value.id]
  {
    if node.properties != map[] then Failure(AttributeError)
    else
      var b := MapToBaseNode(Node(node.id, node.kind, None));
      assert b.properties.Keys == {NameKey};
      Success(b)
  }

  /**
   `map_to_base_relationship`: both endpoints normalised as
   `map_to_base_node` does, which fails when an endpoint carries properties;
   the type passed through unchanged; the properties folded as
   `props_to_dict` does.
   */
  function MapToBaseRelationship(rel: Relationship): (r: Result<BaseRelationship, MappingError>)
    ensures r.Failure? <==> rel.source.properties != map[] || rel.target.properties != map[]
    ensures r.Success? ==>
      && r.value.kind == rel.kind
      && r.value.source.id == Title(rel.source.id) && r.value.target.id == Title(rel.target.id)
      && r.value.source.kind == Capitalize(rel.source.kind) && r.value.target.kind == Capitalize(rel.target.kind)
      && r.value.source.properties == map[NameKey := r.value.source.id]
      && r.value.target.properties == map[NameKey := r.value.target.id]
      && r.value.properties.Keys == FormattedKeys(PropertyList(rel.properties))
    ensures r.Success? ==> var ps := PropertyList(rel.properties);
      forall i :: 0 <= i < |ps| && LastWithKey(ps, i) ==> r.value.properties[FormatPropertyKey(ps[i].key)] == ps[i].value
  {
    match MapEndpoint(rel.source)
    case Failure(e) => Failure(e)
    case Success(source) =>
      match MapEndpoint(rel.target)
      case Failure(e) => Failure(e)
      case Success(target) =>
        TitledUnique(source.id, Title(rel.source.id));
        TitledUnique(target.id, Title(rel.target.id));
        CapitalizedUnique(source.kind, Capitalize(rel.source.kind));
        CapitalizedUnique(target.kind, Capitalize(rel.target.kind));
        var properties := if rel.properties.Some? && rel.properties.value != [] then PropsToDict(rel.properties) else map[];
        Success(BaseRelationship(source, target, rel.kind, properties))
  }

  lemma SplitTwoWords(a: string, b: string)
    requires IsWord(a) && IsWord(b)
    ensures Split(a + " " + b) == [a, b]
  {
    SplitJoin([a, b]);
    assert Join([a, b]) == a + " " + b;
  }

  lemma CaseExamples()
    ensures Lower("birth") == "birth"
    ensures Capitalize("year") == "Year"
  {
    assert Lower("ear") == "ear";
  }

  /**
   A key of two words becomes the first word lower-cased followed by the
   second capitalised: "birth year" gives "birth" + "Year".
   */
  lemma FormatTwoWords(a: string, b: string)
    requires IsWord(a) && IsWord(b)
    ensures FormatPropertyKey(a + " " + b) == Lower(a) + Capitalize(b)
  {
    SplitTwoWords(a, b);
    assert [a, b][1..] == [b];
    assert CapitalizeEach([b]) == [Capitalize(b)];
    assert Concat([Capitalize(b)]) == Capitalize(b) + Concat<char>([]);
  }

  /** "birth year" becomes "birthYear". */
  lemma BirthYear(key: string)
    requires key == "birth year"
    ensures FormatPropertyKey(key) == "birthYear"
  {
    var first, second := "birth", "year";
    assert IsWord(first) && IsWord(second);
    assert key == first + " " + second;
    FormatTwoWords(first, second);
    CaseExamples();
  }

  /** A single-word key is lower-cased completely, camelCase included. */
  lemma FormatSingleWord(w: string)
    requires IsWord(w)
    ensures FormatPropertyKey(w) == Lower(w)
  {
    SplitJoin([w]);
    assert Join([w]) == w;
    assert CapitalizeEach([]) == [];
  }

  /**
   Formatting is not idempotent: the camelCase key made from two words is a
   single word, which a second pass lower-cases completely, so "birth year"
   gives "birthYear" and then "birthyear".
   */
  lemma FormatNotIdempotent(a: string, b: string)
    requires IsWord(a) && IsWord(b) && IsCased(b[0])
    ensures FormatPropertyKey(FormatPropertyKey(a + " " + b)) == Lower(a + b)
    ensures FormatPropertyKey(FormatPropertyKey(a + " " + b)) != FormatPropertyKey(a + " " + b)
  {
    FormatTwoWords(a, b);
    var head := Lower(a);
    var tail := Capitalize(b);
    var k := head + tail;
    assert IsWord(k) by {
      LowerIsLowered(a);
      NoSpaceCaseFree(a, head);
      NoSpaceCaseFree(b, tail);
      NoSpaceAppend(head, tail);
    }
    FormatSingleWord(k);
    LowerAppend(head, tail);
    LowerIsLowered(a);
    LowerAppend(a, b);
    assert k[|a|] == tail[0];
    assert Lower(a + b)[|a|] == ToLower(b[0]) by {
      assert Lower(b)[0] == ToLower(b[0]);
    }
    assert Lower(tail)[0] == Lower(b)[0];
    CharCase(tail[0], b[0]);
  }

  /**
   Two one-word keys that differ only in letter case, such as "age" and
   "Age", collide: the dictionary keeps one lower-cased key with the later
   value.
   */
  lemma CaseVariantKeys(v: string, w: string, x: string, y: string)
    requires IsWord(v) && Lower(v) == Lower(w)
    ensures PropsToDict(Some([Property(v, x), Property(w, y)])) == map[Lower(v) := y]
  {
    NoSpaceCaseFree(v, w);
    assert |w| == |Lower(w)| == |v|;
    FormatSingleWord(v);
    FormatSingleWord(w);
    LaterPropertyWins(Property(v, x), Property(w, y));
  }

  /**
   Two extracted nodes normalise to the same id exactly when their ids
   differ only in letter case; whitespace is kept as it is.
   */
  lemma SameNodeId(a: Node, b: Node)
    ensures MapToBaseNode(a).id == MapToBaseNode(b).id <==> Lower(a.id) == Lower(b.id)
  {
    TitledUnique(MapToBaseNode(a).id, Title(a.id));
    TitledUnique(MapToBaseNode(b).id, Title(b.id));
    TitleSameKey(a.id, b.id);
  }

  /** A normalised id is normalised already: normalising it again changes nothing. */
  lemma NodeIdStable(node: Node)
    ensures MapToBaseNode(Node(MapToBaseNode(node).id, node.kind, node.properties)).id == MapToBaseNode(node).id
    ensures MapToBaseNode(Node(node.id, MapToBaseNode(node).kind, node.properties)).kind == MapToBaseNode(node).kind
  {
    var id := MapToBaseNode(node).id;
    var kind := MapToBaseNode(node).kind;
    LowerIsLowered(node.id);
    TitledUnique(MapToBaseNode(Node(id, node.kind, node.properties)).id, id);
    LowerIsLowered(node.kind);
    CapitalizedUnique(MapToBaseNode(Node(node.id, kind, node.properties)).kind, kind);
  }

  lemma TitleExamples()
    ensures Title("john doe") == "John Doe"
    ensures Title("John Doe") == "John Doe"
    ensures Title(" John Doe ") == " John Doe "
  {
    TitleLowerExample();
    TitleSpacedExample();
    TitleIdempotent("john doe");
  }

  lemma TitleLowerExample()
    ensures Title("john doe") == "John Doe"
  {
  }

  lemma TitleSpacedExample()
    ensures Title(" John Doe ") == " John Doe "
  {
  }

  lemma CapitalizeExample()
    ensures Capitalize("PERSON") == "Person"
  {
    assert IsCapitalized("Person");
    assert Lower("Person") == Lower("PERSON");
    CapitalizedUnique("Person", Capitalize("PERSON"));
  }

  /**
   "john doe" and "John Doe" both become the node "John Doe"; " John Doe "
   keeps its spaces; the type "PERSON" becomes "Person"; and an extracted
   "name" property is replaced by the id.
   */
  lemma MapToBaseNodeExamples()
    ensures MapToBaseNode(Node("john doe", "PERSON", None)).id == "John Doe"
    ensures MapToBaseNode(Node("John Doe", "person", None)).id == "John Doe"
    ensures MapToBaseNode(Node(" John Doe ", "person", None)).id == " John Doe "
    ensures MapToBaseNode(Node("john doe", "PERSON", None)).kind == "Person"
    ensures MapToBaseNode(Node("john doe", "PERSON", Some([Property("name", "Johnny")]))).properties[NameKey] == "John Doe"
  {
    TitleExamples();
    CapitalizeExample();
  }

  /**
   Of two properties whose keys format alike, the later one's value is the
   one stored, and nothing else is.
   */
  lemma LaterPropertyWins(p: Property, q: Property)
    requires FormatPropertyKey(p.key) == FormatPropertyKey(q.key)
    ensures PropsToDict(Some([p, q])) == map[FormatPropertyKey(q.key) := q.value]
  {
    var k := FormatPropertyKey(q.key);
    assert Entries([p, q]) == [(k, p.value), (k, q.value)];
    StoreSameKeyTwice(k, p.value, q.value);
  }

  /** Storing the same key twice keeps only the second value. */
  lemma StoreSameKeyTwice(k: string, v: string, w: string)
    ensures StoreAll([(k, v), (k, w)]) == map[k := w]
  {
    assert [(k, v), (k, w)][..1] == [(k, v)] && [(k, v)][..0] == [];
    assert StoreAll([(k, v)]) == map[k := v];
  }

  /**
   The relationship type is passed through as extracted, however it is
   cased; an endpoint that carries a property makes the mapping fail.
   */
  lemma MapToBaseRelationshipExample()
    ensures var r := MapToBaseRelationship(Relationship(
        BaseNode("alice", "person", map[]), BaseNode("acme corp", "organization", map[]), "works_at", None));
      && r.Success?
      && r.value.source.id == "Alice" && r.value.target.id == "Acme Corp"
      && r.value.kind == "works_at" && r.value.properties == map[]
    ensures MapToBaseRelationship(Relationship(
        BaseNode("alice", "person", map["age" := "41"]), BaseNode("acme corp", "organization", map[]), "works_at", None))
      == Failure(AttributeError)
  {
    assert "age" in map["age" := "41"];
    TitleAliceExample();
    TitleAcmeExample();
  }

  lemma TitleAliceExample()
    ensures Title("alice") == "Alice"
  {
  }

  lemma TitleAcmeExample()
    ensures Title("acme corp") == "Acme Corp"
  {
  }
}

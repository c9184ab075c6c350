/**
 Resolution of local references in an OpenAPI document (section "Reference Object" of OpenAPI 3.0.3),
 with siblings of a reference laid over its target and cycles refused.
 */
module OpenapiLoader {
  import opened Wrappers
  import opened Graphs

  /** A document; the resolver looks into objects only, so lists, numbers and the like are Other. */
  datatype Json = Object(fields: seq<Member>) | Text(s: string) | Other(id: int)

  datatype Member = Member(key: string, value: Json)

  datatype RefError = Unsupported | Circular(ref: string) | Unresolved(ref: string)

  const REF := "$ref"

  /** The position of a key, or the number of fields. */
  function Find(fields: seq<Member>, key: string): (i: nat)
    ensures i <= |fields|
    ensures i < |fields| ==> fields[i].key == key
    ensures forall j | 0 <= j < i :: fields[j].key != key
  {
    if fields == [] then 0
    else if fields[0].key == key then 0
    else 1 + Find(fields[1..], key)
  }

  function Set(fields: seq<Member>, m: Member): seq<Member> {
    var i := Find(fields, m.key);
    if i < |fields| then fields[i := m] else fields + [m]
  }

  /** The target's fields with the siblings of the reference laid over them. */
  function Overlay(target: seq<Member>, siblings: seq<Member>): seq<Member> {
    if siblings == [] then target
    else
      var below, last := Overlay(target, siblings[..|siblings| - 1]), siblings[|siblings| - 1];
      if last.key == REF then below else Set(below, last)
  }

  /** What an object holds under a key. */
  function Field(fields: seq<Member>, key: string): Option<Json> {
    var i := Find(fields, key);
    if i < |fields| then Some(fields[i].value) else None
  }

  function LastSibling(siblings: seq<Member>, key: string): Option<Json> {
    if siblings == [] then None
    else
      var last := siblings[|siblings| - 1];
      if last.key == key then Some(last.value) else LastSibling(siblings[..|siblings| - 1], key)
  }

  lemma FindIs(fields: seq<Member>, key: string, i: nat)
    requires i <= |fields| && (i < |fields| ==> fields[i].key == key)
    requires forall j | 0 <= j < i :: fields[j].key != key
    ensures Find(fields, key) == i
  {
  }

  lemma FieldOfSet(fields: seq<Member>, m: Member, key: string)
    ensures Field(Set(fields, m), key) == if key == m.key then Some(m.value) else Field(fields, key)
  {
    var set0 := Set(fields, m);
    var i, at := Find(fields, key), Find(fields, m.key);
    hide Find;
    if key == m.key {
      FindIs(set0, key, at);
    } else if i < |fields| {
      FindIs(set0, key, i);
    } else {
      FindIs(set0, key, |set0|);
    }
  }

  /** Under each key lies the last sibling with that key, or else the target's field; references never come from siblings. */
  lemma {:induction false} OverlayLookup(target: seq<Member>, siblings: seq<Member>, key: string)
    ensures Field(Overlay(target, siblings), key) ==
      if key != REF && LastSibling(siblings, key).Some? then LastSibling(siblings, key) else Field(target, key)
  {
    hide Field, Set;
    if siblings != [] {
      var front, last := siblings[..|siblings| - 1], siblings[|siblings| - 1];
      OverlayLookup(target, front, key);
      if last.key != REF {
        FieldOfSet(Overlay(target, front), last, key);
      }
    }
  }

  function Split(s: string, separator: char): (parts: seq<string>)
    ensures parts != []
  {
    if s == "" then [""]
    else
      var rest := Split(s[1..], separator);
      if s[0] == separator then [""] + rest else [[s[0]] + rest[0]] + rest[1..]
  }

  predicate IsLocal(ref: Json) {
    ref.Text? && |ref.s| >= 2 && ref.s[..2] == "#/"
  }

  /** Follows the parts from current; the escapes of RFC 6901, section 4, are not undone. */
  function Walk(current: Json, parts: seq<string>): Option<Json> {
    if parts == [] then Some(current)
    else if !current.Object? then None
    else
      var i := Find(current.fields, parts[0]);
      if i == |current.fields| then None else Walk(current.fields[i].value, parts[1..])
  }

  function Target(spec: Json, ref: string): Option<Json>
    requires |ref| >= 2
  {
    Walk(spec, Split(ref[2..], '/'))
  }

  // ---------------------------------------------------------------- references in a document

  ghost function RefsIn(node: Json): set<string>
    decreases node, 0
  {
    if node.Object? then RefsInFields(node.fields) else {}
  }

  ghost function RefsInFields(fields: seq<Member>): set<string>
    decreases fields, 0
  {
    if fields == [] then {}
    else RefsInMember(fields[0]) + RefsInFields(fields[1..])
  }

  ghost function RefsInMember(m: Member): set<string>
    decreases m, 0
  {
    (if m.key == REF && m.value.Text? then {m.value.s} else {}) + RefsIn(m.value)
  }

  lemma {:induction false} RefsOfField(fields: seq<Member>, i: nat)
    requires i < |fields|
    ensures RefsInMember(fields[i]) <= RefsInFields(fields)
    ensures RefsIn(fields[i].value) <= RefsInFields(fields)
  {
    if i > 0 {
      RefsOfField(fields[1..], i - 1);
    }
  }

  lemma {:induction false} RefsOfConcat(a: seq<Member>, b: seq<Member>)
    ensures RefsInFields(a + b) == RefsInFields(a) + RefsInFields(b)
  {
    if a == [] {
      assert a + b == b;
    } else {
      RefsOfConcat(a[1..], b);
      assert (a + b)[1..] == a[1..] + b;
    }
  }

  lemma RefsOfSet(fields: seq<Member>, m: Member)
    ensures RefsInFields(Set(fields, m)) <= RefsInFields(fields) + RefsInMember(m)
  {
    var i := Find(fields, m.key);
    hide RefsInFields, RefsInMember, Find;
    RefsOfOne(m);
    if i < |fields| {
      RefsAround(fields[..i], fields[i], fields[i + 1..]);
      RefsAround(fields[..i], m, fields[i + 1..]);
      SplitAt(fields, i, m);
    } else {
      RefsOfConcat(fields, [m]);
    }
  }

  lemma SplitAt(fields: seq<Member>, i: nat, m: Member)
    requires i < |fields|
    ensures fields == fields[..i] + [fields[i]] + fields[i + 1..]
    ensures fields[i := m] == fields[..i] + [m] + fields[i + 1..]
  {
  }

  lemma RefsOfOne(m: Member)
    ensures RefsInFields([m]) == RefsInMember(m)
  {
    assert [m][1..] == [];
  }

  lemma RefsAround(a: seq<Member>, m: Member, b: seq<Member>)
    ensures RefsInFields(a + [m] + b) == RefsInFields(a) + RefsInMember(m) + RefsInFields(b)
  {
    hide RefsInFields;
    RefsOfOne(m);
    RefsOfConcat(a + [m], b);
    RefsOfConcat(a, [m]);
  }

  lemma {:induction false} RefsOfOverlay(target: seq<Member>, siblings: seq<Member>)
    ensures RefsInFields(Overlay(target, siblings)) <= RefsInFields(target) + RefsInFields(siblings)
  {
    if siblings != [] {
      var front, last := siblings[..|siblings| - 1], siblings[|siblings| - 1];
      RefsOfOverlay(target, front);
      assert siblings == front + [last];
      RefsOfConcat(front, [last]);
      assert RefsInFields([last]) == RefsInMember(last) by { assert [last][1..] == []; }
      if last.key != REF {
        RefsOfSet(Overlay(target, front), last);
      }
    }
  }

  lemma {:induction false} RefsOfWalk(current: Json, parts: seq<string>)
    ensures Walk(current, parts).Some? ==> RefsIn(Walk(current, parts).value) <= RefsIn(current)
  {
    if parts != [] && current.Object? {
      var i := Find(current.fields, parts[0]);
      if i < |current.fields| {
        RefsOfWalk(current.fields[i].value, parts[1..]);
        RefsOfField(current.fields, i);
      }
    }
  }

  /** What the next round of resolution sees: still only references of the document and the node. */
  lemma RefsOfMerged(spec: Json, fields: seq<Member>, target: Json, ref: string)
    requires |ref| >= 2 && Target(spec, ref) == Some(target) && target.Object?
    ensures RefsIn(Object(Overlay(target.fields, fields))) <= RefsIn(spec) + RefsInFields(fields)
  {
    RefsOfWalk(spec, Split(ref[2..], '/'));
    RefsOfOverlay(target.fields, fields);
  }

  // ---------------------------------------------------------------- resolution

  /**
   Resolves every reference on the object paths of node. It ends on every document: a reference moves
   one string of the finite universe to the stack, and everything else goes down into the node.
   */
  function Resolve(spec: Json, node: Json, stack: set<string>, ghost universe: set<string>): Result<Json, RefError>
    requires RefsIn(spec) <= universe && RefsIn(node) <= universe
    decreases |universe - stack|, node, 1
  {
    if !node.Object? then Success(node)
    else
      var i := Find(node.fields, REF);
      if i == |node.fields| then
        match ResolveFields(spec, node.fields, stack, universe)
        case Failure(e) => Failure(e)
        case Success(fields) => Success(Object(fields))
      else if !IsLocal(node.fields[i].value) then Failure(Unsupported)
      else
        var ref := node.fields[i].value.s;
        if ref in stack then Failure(Circular(ref))
        else
          match Target(spec, ref)
          case None => Failure(Unresolved(ref))
          case Some(target) =>
            if target.Object? then
              RefsOfMerged(spec, node.fields, target, ref);
              NextRound(node.fields, i, stack, universe);
              Resolve(spec, Object(Overlay(target.fields, node.fields)), stack + {ref}, universe)
            else Success(target)
  }

  function ResolveFields(spec: Json, fields: seq<Member>, stack: set<string>,
                         ghost universe: set<string>): (r: Result<seq<Member>, RefError>)
    requires RefsIn(spec) <= universe && RefsInFields(fields) <= universe
    decreases |universe - stack|, fields, 0
  {
    if fields == [] then Success([])
    else
      RefsOfField(fields, 0);
      match Resolve(spec, fields[0].value, stack, universe)
      case Failure(e) => Failure(e)
      case Success(v) =>
        match ResolveFields(spec, fields[1..], stack, universe)
        case Failure(e) => Failure(e)
        case Success(rest) => Success([Member(fields[0].key, v)] + rest)
  }

  lemma NextRound(fields: seq<Member>, i: nat, stack: set<string>, universe: set<string>)
    requires i < |fields| && fields[i].key == REF && IsLocal(fields[i].value)
    requires RefsInFields(fields) <= universe && fields[i].value.s !in stack
    ensures |universe - (stack + {fields[i].value.s})| < |universe - stack|
  {
    var ref := fields[i].value.s;
    RefsOfField(fields, i);
    assert ref in RefsInMember(fields[i]);
    assert universe - stack == (universe - (stack + {ref})) + {ref};
  }

  ghost function Universe(spec: Json, node: Json): set<string> {
    RefsIn(spec) + RefsIn(node)
  }

  method FollowPath(current0: Json, parts: seq<string>) returns (r: Option<Json>)
    ensures r == Walk(current0, parts)
  {
    var current := current0;
    for k := 0 to |parts|
      invariant Walk(current0, parts) == Walk(current, parts[k..])
    {
      if !current.Object? || Find(current.fields, parts[k]) == |current.fields| {
        return None;
      }
      current := current.fields[Find(current.fields, parts[k])].value;
    }
    r := Some(current);
  }

  method LayOver(target: seq<Member>, siblings: seq<Member>) returns (resolved: seq<Member>)
    ensures resolved == Overlay(target, siblings)
  {
    resolved := target;
    for k := 0 to |siblings|
      invariant resolved == Overlay(target, siblings[..k])
    {
      assert siblings[..k + 1][..k] == siblings[..k];
      if siblings[k].key != REF {
        resolved := Set(resolved, siblings[k]);
      }
    }
    assert siblings[..|siblings|] == siblings;
  }

  function InFront(done: seq<Member>, rest: Result<seq<Member>, RefError>): Result<seq<Member>, RefError> {
    match rest
    case Failure(e) => Failure(e)
    case Success(fields) => Success(done + fields)
  }

  lemma AddInFront(done: seq<Member>, rest: Result<seq<Member>, RefError>)
    ensures InFront([], rest) == rest
    ensures InFront(done, Success([])) == Success(done)
  {
    if rest.Success? { assert [] + rest.value == rest.value; }
    assert done + [] == done;
  }

  lemma MoveToFront(done: seq<Member>, m: Member, rest: Result<seq<Member>, RefError>)
    ensures InFront(done, InFront([m], rest)) == InFront(done + [m], rest)
  {
    if rest.Success? { assert done + ([m] + rest.value) == done + [m] + rest.value; }
  }

  /** The resolver with its loops: the walk to the target and the overlay of the siblings. */
  method ResolveRef(spec: Json, node: Json, stack: set<string>, ghost universe: set<string>)
    returns (r: Result<Json, RefError>)
    requires RefsIn(spec) <= universe && RefsIn(node) <= universe
    ensures r == Resolve(spec, node, stack, universe)
    decreases |universe - stack|, node
  {
    if !node.Object? {
      return Success(node);
    }
    var i := Find(node.fields, REF);
    if i == |node.fields| {
      var resolved := [];
      assert node.fields[0..] == node.fields;
      AddInFront([], ResolveFields(spec, node.fields, stack, universe));
      for k := 0 to |node.fields|
        invariant RefsInFields(node.fields[k..]) <= universe
        invariant ResolveFields(spec, node.fields, stack, universe)
          == InFront(resolved, ResolveFields(spec, node.fields[k..], stack, universe))
      {
        RefsOfField(node.fields, k);
        RefsOfRest(node.fields, k + 1);
        assert node.fields[k..][1..] == node.fields[k + 1..];
        var value := ResolveRef(spec, node.fields[k].value, stack, universe);
        if value.Failure? {
          return Failure(value.error);
        }
        var m := Member(node.fields[k].key, value.value);
        MoveToFront(resolved, m, ResolveFields(spec, node.fields[k + 1..], stack, universe));
        resolved := resolved + [m];
      }
      AddInFront(resolved, Success([]));
      return Success(Object(resolved));
    }
    if !IsLocal(node.fields[i].value) {
      return Failure(Unsupported);
    }
    var ref := node.fields[i].value.s;
    if ref in stack {
      return Failure(Circular(ref));
    }
    var target := FollowPath(spec, Split(ref[2..], '/'));
    if target.None? {
      return Failure(Unresolved(ref));
    }
    if !target.value.Object? {
      return Success(target.value);
    }
    var merged := LayOver(target.value.fields, node.fields);
    RefsOfMerged(spec, node.fields, target.value, ref);
    NextRound(node.fields, i, stack, universe);
    r := ResolveRef(spec, Object(merged), stack + {ref}, universe);
  }

  lemma RefsOfRest(fields: seq<Member>, k: nat)
    requires k <= |fields|
    ensures RefsInFields(fields[k..]) <= RefsInFields(fields)
  {
    assert fields == fields[..k] + fields[k..];
    RefsOfConcat(fields[..k], fields[k..]);
  }

  // ---------------------------------------------------------------- resolved documents

  /** No object path of the document leads to an object with a reference. */
  ghost predicate NoRef(node: Json)
    decreases node
  {
    node.Object? ==> forall m | m in node.fields :: m.key != REF && NoRef(m.value)
  }

  /** A document that resolution returns holds no reference any more. */
  lemma {:induction false} ResolvedHasNoRef(spec: Json, node: Json, stack: set<string>, universe: set<string>)
    requires RefsIn(spec) <= universe && RefsIn(node) <= universe
    ensures var r := Resolve(spec, node, stack, universe); r.Success? ==> NoRef(r.value)
    decreases |universe - stack|, node, 1
  {
    if node.Object? {
      var i := Find(node.fields, REF);
      if i == |node.fields| {
        FieldsHaveNoRef(spec, node.fields, stack, universe);
      } else if IsLocal(node.fields[i].value) && node.fields[i].value.s !in stack {
        var ref := node.fields[i].value.s;
        var target := Target(spec, ref);
        if target.Some? && target.value.Object? {
          RefsOfMerged(spec, node.fields, target.value, ref);
          NextRound(node.fields, i, stack, universe);
          ResolvedHasNoRef(spec, Object(Overlay(target.value.fields, node.fields)), stack + {ref}, universe);
        }
      }
    }
  }

  lemma {:induction false} FieldsHaveNoRef(spec: Json, fields: seq<Member>, stack: set<string>, universe: set<string>)
    requires RefsIn(spec) <= universe && RefsInFields(fields) <= universe
    requires forall i | 0 <= i < |fields| :: fields[i].key != REF
    ensures var r := ResolveFields(spec, fields, stack, universe);
      r.Success? ==> forall m | m in r.value :: m.key != REF && NoRef(m.value)
    decreases |universe - stack|, fields, 0
  {
    if fields != [] {
      RefsOfField(fields, 0);
      ResolvedHasNoRef(spec, fields[0].value, stack, universe);
      FieldsHaveNoRef(spec, fields[1..], stack, universe);
    }
  }

  /** Resolving a document without references gives it back, so resolving twice is resolving once. */
  lemma {:induction false} ResolvedStays(spec: Json, node: Json, stack: set<string>, universe: set<string>)
    requires RefsIn(spec) <= universe && RefsIn(node) <= universe && NoRef(node)
    ensures Resolve(spec, node, stack, universe) == Success(node)
    decreases node, 1
  {
    if node.Object? {
      ResolvedFieldsStay(spec, node.fields, stack, universe);
    }
  }

  lemma {:induction false} ResolvedFieldsStay(spec: Json, fields: seq<Member>, stack: set<string>,
                                              universe: set<string>)
    requires RefsIn(spec) <= universe && RefsInFields(fields) <= universe
    requires forall m | m in fields :: m.key != REF && NoRef(m.value)
    ensures ResolveFields(spec, fields, stack, universe) == Success(fields)
    decreases fields, 0
  {
    if fields != [] {
      RefsOfField(fields, 0);
      assert fields[0] in fields;
      ResolvedStays(spec, fields[0].value, stack, universe);
      ResolvedFieldsStay(spec, fields[1..], stack, universe);
      assert [Member(fields[0].key, fields[0].value)] + fields[1..] == fields;
    }
  }

  /** The stack only decides whether resolution fails, never what it returns. */
  lemma {:induction false} StackDoesNotShowInResult(spec: Json, node: Json, stack: set<string>, other: set<string>,
                                                    universe: set<string>)
    requires RefsIn(spec) <= universe && RefsIn(node) <= universe
    ensures var a, b := Resolve(spec, node, stack, universe), Resolve(spec, node, other, universe);
      a.Success? && b.Success? ==> a == b
    decreases |universe - stack|, node, 1
  {
    if node.Object? {
      var i := Find(node.fields, REF);
      if i == |node.fields| {
        StackDoesNotShowInFields(spec, node.fields, stack, other, universe);
      } else if IsLocal(node.fields[i].value) && node.fields[i].value.s !in stack + other {
        var ref := node.fields[i].value.s;
        var target := Target(spec, ref);
        if target.Some? && target.value.Object? {
          RefsOfMerged(spec, node.fields, target.value, ref);
          NextRound(node.fields, i, stack, universe);
          StackDoesNotShowInResult(spec, Object(Overlay(target.value.fields, node.fields)), stack + {ref}, other + {ref}, universe);
        }
      }
    }
  }

  lemma {:induction false} StackDoesNotShowInFields(spec: Json, fields: seq<Member>, stack: set<string>,
                                                    other: set<string>, universe: set<string>)
    requires RefsIn(spec) <= universe && RefsInFields(fields) <= universe
    ensures var a, b := ResolveFields(spec, fields, stack, universe), ResolveFields(spec, fields, other, universe);
      a.Success? && b.Success? ==> a == b
    decreases |universe - stack|, fields, 0
  {
    if fields != [] {
      RefsOfField(fields, 0);
      StackDoesNotShowInResult(spec, fields[0].value, stack, other, universe);
      StackDoesNotShowInFields(spec, fields[1..], stack, other, universe);
    }
  }

  // ---------------------------------------------------------------- references as they are written

  function Joined(parts: seq<string>, separator: char): string
    requires parts != []
  {
    if |parts| == 1 then parts[0] else parts[0] + [separator] + Joined(parts[1..], separator)
  }

  /** The parts put together give the text back, and none of them holds the separator. */
  lemma {:induction false} PartsOfText(s: string, separator: char)
    ensures Joined(Split(s, separator), separator) == s
    ensures forall part | part in Split(s, separator) :: separator !in part
  {
    if s != "" {
      PartsOfText(s[1..], separator);
      var rest, parts := Split(s[1..], separator), Split(s, separator);
      if s[0] == separator {
        assert parts == [""] + rest && parts[1..] == rest;
        assert Joined(parts, separator) == "" + [separator] + s[1..] == s;
      } else {
        assert parts[1..] == rest[1..] && parts[0] == [s[0]] + rest[0];
        assert forall part | part in parts :: part == parts[0] || part in rest;
        assert Joined(parts, separator) == [s[0]] + Joined(rest, separator);
        assert rest[0] in rest && s == [s[0]] + s[1..];
      }
    }
  }

  /** So the parts are determined: a text put together from parts without the separator is split into them. */
  lemma {:induction false} SplitOfJoined(parts: seq<string>, separator: char)
    requires parts != [] && forall part | part in parts :: separator !in part
    ensures Split(Joined(parts, separator), separator) == parts
  {
    if |parts| == 1 {
      assert parts == [parts[0]] && parts[0] in parts;
      SplitOfPart(parts[0], separator);
    } else {
      assert parts[0] in parts;
      SplitOfJoined(parts[1..], separator);
      SplitBehindPart(parts[0], separator, Joined(parts[1..], separator));
      assert parts == [parts[0]] + parts[1..];
    }
  }

  lemma {:induction false} SplitOfPart(part: string, separator: char)
    requires separator !in part
    ensures Split(part, separator) == [part]
  {
    if part != "" {
      SplitOfPart(part[1..], separator);
      assert part == [part[0]] + part[1..] && part[0] in part;
    }
  }

  lemma {:induction false} SplitBehindPart(part: string, separator: char, rest: string)
    requires separator !in part
    ensures Split(part + [separator] + rest, separator) == [part] + Split(rest, separator)
  {
    var s := part + [separator] + rest;
    if part == "" {
      assert s[1..] == rest;
    } else {
      SplitBehindPart(part[1..], separator, rest);
      assert s[1..] == part[1..] + [separator] + rest && part[0] in part;
      assert part == [part[0]] + part[1..];
    }
  }

  /** Keys that lead from one object to the next, each of which has every key once. */
  ghost predicate LeadThrough(keys: seq<string>, path: seq<Json>) {
    |path| == |keys| + 1 && forall i | 0 <= i < |keys| :: LeadsOn(path[i], keys[i], path[i + 1])
  }

  ghost predicate LeadsOn(from: Json, key: string, to: Json) {
    from.Object? && DistinctMembers(from.fields) && Member(key, to) in from.fields
  }

  lemma {:induction false} WalkAlong(keys: seq<string>, path: seq<Json>)
    requires LeadThrough(keys, path)
    ensures Walk(path[0], keys) == Some(path[|keys|])
  {
    if keys != [] {
      assert LeadsOn(path[0], keys[0], path[0 + 1]);
      var j :| 0 <= j < |path[0].fields| && path[0].fields[j] == Member(keys[0], path[1]);
      FindIs(path[0].fields, keys[0], j);
      hide Find, LeadsOn;
      forall i | 0 <= i < |keys| - 1 ensures LeadsOn(path[1..][i], keys[1..][i], path[1..][i + 1]) {
        assert LeadsOn(path[i + 1], keys[i + 1], path[i + 1 + 1]);
      }
      WalkAlong(keys[1..], path[1..]);
    }
  }

  lemma {:induction false} WalkOfMore(current: Json, keys: seq<string>, more: seq<string>)
    requires Walk(current, keys).Some?
    ensures Walk(current, keys + more) == Walk(Walk(current, keys).value, more)
  {
    if keys == [] {
      assert keys + more == more;
    } else {
      WalkOfMore(current.fields[Find(current.fields, keys[0])].value, keys[1..], more);
      assert (keys + more)[1..] == keys[1..] + more;
    }
  }

  ghost predicate SlashFree(keys: seq<string>) {
    forall key | key in keys :: '/' !in key
  }

  lemma TargetOfKeys(spec: Json, keys: seq<string>)
    requires keys != [] && SlashFree(keys)
    ensures var ref := "#/" + Joined(keys, '/'); IsLocal(Text(ref)) && Target(spec, ref) == Walk(spec, keys)
  {
    var ref := "#/" + Joined(keys, '/');
    assert ref[..2] == "#/" && ref[2..] == Joined(keys, '/');
    SplitOfJoined(keys, '/');
  }

  /**
   A reference whose parts lead through objects of the document is resolved to what they lead to. With
   no references in there nor in the siblings, an object is returned with the siblings laid over it, key
   by key; anything else is returned as it is, whatever the siblings are.
   */
  lemma ReferenceResolves(spec: Json, keys: seq<string>, path: seq<Json>, node: Json, universe: set<string>)
    requires RefsIn(spec) <= universe && RefsIn(node) <= universe
    requires keys != [] && SlashFree(keys) && LeadThrough(keys, path) && path[0] == spec
    requires node.Object? && DistinctMembers(node.fields)
    requires Member("$ref", Text("#/" + Joined(keys, '/'))) in node.fields
    requires path[|keys|].Object? ==>
      NoRef(path[|keys|]) && forall m | m in node.fields && m.key != "$ref" :: NoRef(m.value)
    ensures var r, target := Resolve(spec, node, {}, universe), path[|keys|];
      if target.Object? then
        && r.Success? && r.value.Object?
        && (forall m | m in node.fields && m.key != "$ref" :: Field(r.value.fields, m.key) == Some(m.value))
        && (forall key | forall m | m in node.fields && m.key != "$ref" :: m.key != key ::
              Field(r.value.fields, key) == Field(target.fields, key))
      else r == Success(target)
  {
    var ref, target := "#/" + Joined(keys, '/'), path[|keys|];
    var i :| 0 <= i < |node.fields| && node.fields[i] == Member("$ref", Text(ref));
    FindIs(node.fields, REF, i);
    TargetOfKeys(spec, keys);
    WalkAlong(keys, path);
    if target.Object? {
      hide Find, Walk, Split, Joined;
      var merged := Object(Overlay(target.fields, node.fields));
      NextRound(node.fields, i, {}, universe);
      RefsOfMerged(spec, node.fields, target, ref);
      MergedHasNoRef(target.fields, node.fields);
      ResolvedStays(spec, merged, {} + {ref}, universe);
      assert Resolve(spec, node, {}, universe) == Success(merged);
      FieldsOfMerged(target.fields, node.fields);
    }
  }

  lemma MergedHasNoRef(target: seq<Member>, siblings: seq<Member>)
    requires NoRef(Object(target)) && forall m | m in siblings && m.key != REF :: NoRef(m.value)
    ensures NoRef(Object(Overlay(target, siblings)))
  {
    OverlayMembers(target, siblings);
    hide Overlay;
  }

  lemma FieldsOfMerged(target: seq<Member>, siblings: seq<Member>)
    requires DistinctMembers(siblings) && NoRef(Object(target))
    ensures var merged := Overlay(target, siblings);
      && (forall m | m in siblings && m.key != REF :: Field(merged, m.key) == Some(m.value))
      && (forall key | forall m | m in siblings && m.key != REF :: m.key != key :: Field(merged, key) == Field(target, key))
  {
    hide Field, Overlay, LastSibling;
    var merged := Overlay(target, siblings);
    forall m | m in siblings && m.key != REF ensures Field(merged, m.key) == Some(m.value) {
      var i :| 0 <= i < |siblings| && siblings[i] == m;
      LastSiblingIs(siblings, i);
      OverlayLookup(target, siblings, m.key);
    }
    forall key | forall m | m in siblings && m.key != REF :: m.key != key ensures Field(merged, key) == Field(target, key) {
      LastSiblingComesFrom(siblings, key);
      OverlayLookup(target, siblings, key);
    }
  }

  /** A reference is unresolved where its parts lead to something that is no object or lacks the next part. */
  lemma ReferenceIsUnresolved(spec: Json, keys: seq<string>, path: seq<Json>, more: seq<string>, node: Json,
                              universe: set<string>)
    requires RefsIn(spec) <= universe && RefsIn(node) <= universe
    requires more != [] && SlashFree(keys + more) && LeadThrough(keys, path) && path[0] == spec
    requires path[|keys|].Object? ==> forall m | m in path[|keys|].fields :: m.key != more[0]
    requires node.Object? && DistinctMembers(node.fields)
    requires Member("$ref", Text("#/" + Joined(keys + more, '/'))) in node.fields
    ensures Resolve(spec, node, {}, universe) == Failure(Unresolved("#/" + Joined(keys + more, '/')))
  {
    var ref := "#/" + Joined(keys + more, '/');
    var i :| 0 <= i < |node.fields| && node.fields[i] == Member("$ref", Text(ref));
    FindIs(node.fields, REF, i);
    TargetOfKeys(spec, keys + more);
    WalkAlong(keys, path);
    WalkOfMore(spec, keys, more);
    var last := path[|keys|];
    if last.Object? {
      FindIs(last.fields, more[0], |last.fields|);
    }
  }

  // ---------------------------------------------------------------- exactly when resolution fails

  /** What resolution looks at next: a field's value, or the target of the reference with the siblings laid over it. */
  ghost predicate Unfolds(spec: Json, a: Json, b: Json) {
    a.Object? &&
    match Field(a.fields, REF)
    case None => exists m :: m in a.fields && m.value == b
    case Some(ref) =>
      IsLocal(ref) && Target(spec, ref.s).Some? && Target(spec, ref.s).value.Object?
      && b == Object(Overlay(Target(spec, ref.s).value.fields, a.fields))
  }

  ghost predicate Unfolding(spec: Json, w: seq<Json>) {
    w != [] && forall i | 0 <= i < |w| - 1 :: Unfolds(spec, w[i], w[i + 1])
  }

  ghost predicate Names(node: Json, ref: string) {
    node.Object? && Field(node.fields, REF) == Some(Text(ref))
  }

  ghost function Named(w: seq<Json>): set<string> {
    if w == [] then {}
    else
      var front := Named(w[1..]);
      if w[0].Object? && Field(w[0].fields, REF).Some? && Field(w[0].fields, REF).value.Text?
      then {Field(w[0].fields, REF).value.s} + front else front
  }

  /** What is wrong with the object's own reference after the given ones. */
  ghost function ErrorAt(spec: Json, node: Json, seen: set<string>): Option<RefError> {
    if !node.Object? then None
    else
      match Field(node.fields, REF)
      case None => None
      case Some(ref) =>
        if !IsLocal(ref) then Some(Unsupported)
        else if ref.s in seen then Some(Circular(ref.s))
        else if Target(spec, ref.s).None? then Some(Unresolved(ref.s))
        else None
  }

  /** An unfolding of the node ends in an object with this error. */
  ghost predicate EndsIn(spec: Json, node: Json, stack: set<string>, w: seq<Json>, e: RefError) {
    && Unfolding(spec, w) && w[0] == node
    && ErrorAt(spec, w[|w| - 1], stack + Named(w[..|w| - 1])) == Some(e)
  }

  lemma UnfoldingStep(spec: Json, node: Json, w: seq<Json>)
    requires w != [] && Unfolds(spec, node, w[0])
    ensures Unfolding(spec, [node] + w) <==> Unfolding(spec, w)
  {
    var more := [node] + w;
    hide Unfolds;
    forall i | 0 <= i < |w| - 1 ensures Unfolds(spec, w[i], w[i + 1]) <==> Unfolds(spec, more[i + 1], more[i + 1 + 1]) {
    }
    if Unfolding(spec, w) {
      forall i | 0 <= i < |more| - 1 ensures Unfolds(spec, more[i], more[i + 1]) {
        assert i > 0 ==> Unfolds(spec, w[i - 1], w[i - 1 + 1]);
      }
    }
  }

  lemma NamedStep(node: Json, w: seq<Json>)
    ensures Named([node] + w) == Named([node]) + Named(w)
  {
    assert ([node] + w)[1..] == w && [node][1..] == [];
    hide Field;
  }

  /** One more object in front: what it names is on the stack from then on. */
  lemma EndsInStep(spec: Json, node: Json, stack: set<string>, w: seq<Json>, e: RefError)
    requires w != [] && Unfolds(spec, node, w[0])
    ensures EndsIn(spec, node, stack, [node] + w, e) <==> EndsIn(spec, w[0], stack + Named([node]), w, e)
  {
    var more, front := [node] + w, w[..|w| - 1];
    hide Unfolds, Unfolding, Named, ErrorAt;
    UnfoldingStep(spec, node, w);
    NamedStep(node, front);
    assert more[..|more| - 1] == [node] + front && more[|more| - 1] == w[|w| - 1];
    assert stack + (Named([node]) + Named(front)) == stack + Named([node]) + Named(front);
  }

  lemma EndsAtOnce(spec: Json, node: Json, stack: set<string>, w: seq<Json>, e: RefError)
    requires |w| == 1
    ensures EndsIn(spec, node, stack, w, e) <==> w[0] == node && ErrorAt(spec, node, stack) == Some(e)
  {
    assert w[..0] == [] && stack + {} == stack;
  }

  /** A reported error is met on some unfolding of the node. */
  lemma {:induction false} ErrorIsMet(spec: Json, node: Json, stack: set<string>, universe: set<string>) returns (w: seq<Json>)
    requires RefsIn(spec) <= universe && RefsIn(node) <= universe
    requires Resolve(spec, node, stack, universe).Failure?
    ensures EndsIn(spec, node, stack, w, Resolve(spec, node, stack, universe).error)
    decreases |universe - stack|, node, 1
  {
    var e := Resolve(spec, node, stack, universe).error;
    var i := Find(node.fields, REF);
    if i == |node.fields| {
      var m, below := ErrorInFieldIsMet(spec, node.fields, stack, universe);
      EndsInStep(spec, node, stack, below, e);
      assert stack + Named([node]) == stack by { NothingNamed(node); }
      w := [node] + below;
    } else if ErrorAt(spec, node, stack).Some? {
      w := [node];
      EndsAtOnce(spec, node, stack, w, e);
    } else {
      var ref := node.fields[i].value.s;
      var target := Target(spec, ref).value;
      RefsOfMerged(spec, node.fields, target, ref);
      NextRound(node.fields, i, stack, universe);
      OneNamed(node, ref);
      var below := ErrorIsMet(spec, Object(Overlay(target.fields, node.fields)), stack + {ref}, universe);
      EndsInStep(spec, node, stack, below, e);
      w := [node] + below;
    }
  }

  lemma NothingNamed(node: Json)
    requires node.Object? && Field(node.fields, REF).None?
    ensures Named([node]) == {}
  {
    assert [node][1..] == [];
  }

  lemma OneNamed(node: Json, ref: string)
    requires Names(node, ref)
    ensures Named([node]) == {ref}
  {
    assert [node][1..] == [];
  }

  lemma {:induction false} ErrorInFieldIsMet(spec: Json, fields: seq<Member>, stack: set<string>, universe: set<string>)
    returns (m: Member, w: seq<Json>)
    requires RefsIn(spec) <= universe && RefsInFields(fields) <= universe
    requires ResolveFields(spec, fields, stack, universe).Failure?
    ensures m in fields && EndsIn(spec, m.value, stack, w, ResolveFields(spec, fields, stack, universe).error)
    decreases |universe - stack|, fields, 0
  {
    RefsOfField(fields, 0);
    if Resolve(spec, fields[0].value, stack, universe).Failure? {
      m := fields[0];
      w := ErrorIsMet(spec, m.value, stack, universe);
    } else {
      m, w := ErrorInFieldIsMet(spec, fields[1..], stack, universe);
    }
  }

  /** No node with an error on one of its unfoldings is resolved. */
  lemma {:induction false} MetErrorFails(spec: Json, node: Json, stack: set<string>, universe: set<string>, w: seq<Json>,
                                         e: RefError)
    requires RefsIn(spec) <= universe && RefsIn(node) <= universe && EndsIn(spec, node, stack, w, e)
    ensures Resolve(spec, node, stack, universe).Failure?
    decreases |w|
  {
    if |w| == 1 {
      EndsAtOnce(spec, node, stack, w, e);
    } else {
      var rest := w[1..];
      assert w == [node] + rest && Unfolds(spec, w[0], w[0 + 1]);
      EndsInStep(spec, node, stack, rest, e);
      var i := Find(node.fields, REF);
      if i == |node.fields| {
        NothingNamed(node);
        assert stack + {} == stack;
        var j :| 0 <= j < |node.fields| && node.fields[j].value == rest[0];
        RefsOfField(node.fields, j);
        MetErrorFails(spec, rest[0], stack, universe, rest, e);
        if ResolveFields(spec, node.fields, stack, universe).Success? {
          FieldsResolved(spec, node.fields, stack, universe, j);
        }
      } else {
        var ref := node.fields[i].value.s;
        OneNamed(node, ref);
        RefsOfMerged(spec, node.fields, Target(spec, ref).value, ref);
        if ref !in stack {
          NextRound(node.fields, i, stack, universe);
          MetErrorFails(spec, rest[0], stack + {ref}, universe, rest, e);
        }
      }
    }
  }

  /**
   The exact condition, for every document: resolution fails if and only if some unfolding of the node
   leads to an object whose own reference is not local, has no target, or was named before on the way.
   The error it reports is one of those.
   */
  lemma FailsIff(spec: Json, node: Json)
    ensures var r := Resolve(spec, node, {}, Universe(spec, node));
      && (r.Failure? <==> exists w, e :: EndsIn(spec, node, {}, w, e))
      && (r.Failure? ==> exists w :: EndsIn(spec, node, {}, w, r.error))
  {
    var universe := Universe(spec, node);
    if Resolve(spec, node, {}, universe).Failure? {
      var w := ErrorIsMet(spec, node, {}, universe);
    }
    forall w, e | EndsIn(spec, node, {}, w, e) ensures Resolve(spec, node, {}, universe).Failure? {
      MetErrorFails(spec, node, {}, universe, w, e);
    }
  }

  /** Some object of the unfolding names the same reference as its last one. */
  ghost predicate Repeats(w: seq<Json>) {
    w != [] && exists i, ref :: 0 <= i < |w| - 1 && Names(w[i], ref) && Names(w[|w| - 1], ref)
  }

  lemma {:induction false} NamedIs(w: seq<Json>, ref: string)
    ensures ref in Named(w) <==> exists i :: 0 <= i < |w| && Names(w[i], ref)
  {
    if w != [] {
      NamedIs(w[1..], ref);
      assert forall i :: 0 <= i < |w[1..]| ==> w[1..][i] == w[i + 1];
      if i :| 0 < i < |w| && Names(w[i], ref) {
        assert Names(w[1..][i - 1], ref);
      }
    }
  }

  lemma {:induction false} UnfoldingIsGood(spec: Json, w: seq<Json>, k: nat)
    requires RefsAreGood(spec, spec) && Unfolding(spec, w) && RefsAreGood(spec, w[0]) && k < |w|
    ensures RefsAreGood(spec, w[k])
  {
    if k > 0 {
      UnfoldingIsGood(spec, w, k - 1);
      assert Unfolds(spec, w[k - 1], w[k - 1 + 1]);
      var a := w[k - 1];
      if Field(a.fields, REF).Some? {
        var ref := Field(a.fields, REF).value.s;
        TargetKeeps(n => RefsAreGood(spec, n), spec, ref);
        MergedIsGood(spec, Target(spec, ref).value.fields, a.fields);
      }
    }
  }

  /**
   With local references that have targets, and whatever the siblings are, resolution fails if and only
   if some unfolding of the node names a reference a second time.
   */
  lemma FailsIffRepeats(spec: Json, node: Json)
    requires RefsAreGood(spec, spec) && RefsAreGood(spec, node)
    ensures Resolve(spec, node, {}, Universe(spec, node)).Failure? <==>
      exists w :: Unfolding(spec, w) && w[0] == node && Repeats(w)
  {
    FailsIff(spec, node);
    hide Resolve, Unfolds, Named, Names, Target;
    forall w | Unfolding(spec, w) && w[0] == node
      ensures Repeats(w) <==> exists e :: EndsIn(spec, node, {}, w, e)
    {
      RepeatsIsError(spec, w);
    }
  }

  lemma RepeatsIsError(spec: Json, w: seq<Json>)
    requires RefsAreGood(spec, spec) && Unfolding(spec, w) && RefsAreGood(spec, w[0])
    ensures Repeats(w) <==> exists e :: EndsIn(spec, w[0], {}, w, e)
  {
    var last, front := w[|w| - 1], w[..|w| - 1];
    UnfoldingIsGood(spec, w, |w| - 1);
    assert {} + Named(front) == Named(front);
    hide Unfolding, Named, Target;
    if last.Object? && Field(last.fields, REF).Some? {
      var ref := Field(last.fields, REF).value.s;
      NamedIs(front, ref);
      assert forall i | 0 <= i < |front| :: front[i] == w[i];
      assert EndsIn(spec, w[0], {}, w, Circular(ref)) <==> Unfolding(spec, w) && ref in Named(front);
    }
  }

  // ---------------------------------------------------------------- cycles

  /** No sibling of a reference carries a reference itself. */
  ghost predicate PlainSiblings(node: Json)
    decreases node
  {
    node.Object? ==>
      && (Find(node.fields, REF) < |node.fields| ==> forall m | m in node.fields && m.key != REF :: RefsIn(m.value) == {})
      && forall m | m in node.fields :: PlainSiblings(m.value)
  }

  /** The target of r is an object with the reference s. */
  ghost predicate IsAlias(spec: Json, r: string, s: string) {
    && |r| >= 2 && Target(spec, r).Some? && Target(spec, r).value.Object?
    && Field(Target(spec, r).value.fields, REF) == Some(Text(s))
  }

  ghost predicate AliasChain(spec: Json, w: seq<string>) {
    w != [] && forall i | 0 <= i < |w| - 1 :: IsAlias(spec, w[i], w[i + 1])
  }

  /** Resolving r lays siblings over the target of s, now or in a later round. */
  ghost predicate AliasLeads(spec: Json, r: string, s: string) {
    exists w :: AliasChain(spec, w) && w[0] == r && w[|w| - 1] == s
  }

  /** The sibling replaces no field of the target that carries a reference, and is not dropped with one of its own. */
  ghost predicate Harmless(target: Json, m: Member) {
    if target.Object? then forall f | f in target.fields && f.key == m.key :: RefsIn(f.value) == {}
    else RefsIn(m.value) == {}
  }

  ghost predicate SiblingsHarmless(spec: Json, siblings: seq<Member>, r: string) {
    forall s, m | AliasLeads(spec, r, s) && |s| >= 2 && Target(spec, s).Some? && m in siblings && m.key != REF ::
      Harmless(Target(spec, s).value, m)
  }

  /** Whatever a reference resolves to, its siblings hide no reference. */
  ghost predicate KeepsReferences(spec: Json, node: Json)
    decreases node
  {
    node.Object? ==>
      && (Field(node.fields, REF).Some? && Field(node.fields, REF).value.Text? ==>
            SiblingsHarmless(spec, node.fields, Field(node.fields, REF).value.s))
      && forall m | m in node.fields :: KeepsReferences(spec, m.value)
  }

  ghost predicate DistinctMembers(fields: seq<Member>) {
    forall i, j | 0 <= i < j < |fields| :: fields[i].key != fields[j].key
  }

  /** Every object has each key once, as every mapping that the program reads has. */
  ghost predicate HasDistinctKeys(node: Json)
    decreases node
  {
    node.Object? ==> DistinctMembers(node.fields) && forall m | m in node.fields :: HasDistinctKeys(m.value)
  }

  /** The target of r mentions s. */
  ghost predicate RefersTo(spec: Json, r: string, s: string) {
    |r| >= 2 && Target(spec, r).Some? && s in RefsIn(Target(spec, r).value)
  }

  ghost function RefEdges(spec: Json, universe: set<string>): set<(string, string)> {
    set r, s | r in universe && s in universe && RefersTo(spec, r, s) :: (r, s)
  }

  ghost predicate Leads(edges: set<(string, string)>, r: string, s: string) {
    exists w :: IsWalk(edges, w) && |w| >= 2 && w[0] == r && w[|w| - 1] == s
  }

  ghost predicate Reached(edges: set<(string, string)>, roots: set<string>, s: string) {
    exists r :: r in roots && HasPath(edges, r, s)
  }

  ghost predicate CycleThrough(edges: set<(string, string)>, r: string) {
    exists w :: IsCycle(edges, w) && w[0] == r
  }

  lemma EdgeLeads(edges: set<(string, string)>, r: string, s: string)
    requires (r, s) in edges
    ensures Leads(edges, r, s)
    ensures forall q | Leads(edges, q, r) :: Leads(edges, q, s)
    ensures forall q | HasPath(edges, q, r) :: HasPath(edges, q, s)
  {
    assert IsWalk(edges, [r, s]);
    forall q | Leads(edges, q, r) ensures Leads(edges, q, s) {
      var w :| IsWalk(edges, w) && |w| >= 2 && w[0] == q && w[|w| - 1] == r;
      JoinWalks(edges, w, [s]);
    }
    forall q | HasPath(edges, q, r) ensures HasPath(edges, q, s) {
      var w :| IsWalk(edges, w) && w[0] == q && w[|w| - 1] == r;
      JoinWalks(edges, w, [s]);
      PathByWalk(edges, w + [s]);
    }
  }

  /** What an object hands down to its fields holds for whatever a walk reaches. */
  lemma {:induction false} WalkKeeps(P: Json -> bool, current: Json, parts: seq<string>)
    requires forall n, m | P(n) && n.Object? && m in n.fields :: P(m.value)
    requires P(current)
    ensures Walk(current, parts).Some? ==> P(Walk(current, parts).value)
  {
    if parts != [] && current.Object? {
      var i := Find(current.fields, parts[0]);
      if i < |current.fields| {
        assert current.fields[i] in current.fields;
        WalkKeeps(P, current.fields[i].value, parts[1..]);
      }
    }
  }

  /** The members of the overlaid object come from the target or are siblings. */
  lemma {:induction false} OverlayMembers(target: seq<Member>, siblings: seq<Member>)
    ensures forall m | m in Overlay(target, siblings) :: m in target || (m in siblings && m.key != REF)
  {
    if siblings != [] {
      var front, last := siblings[..|siblings| - 1], siblings[|siblings| - 1];
      OverlayMembers(target, front);
      assert siblings == front + [last];
    }
  }

  lemma {:induction false} OverlayKeepsKeysDistinct(target: seq<Member>, siblings: seq<Member>)
    requires DistinctMembers(target)
    ensures DistinctMembers(Overlay(target, siblings))
  {
    if siblings != [] {
      var front, last := siblings[..|siblings| - 1], siblings[|siblings| - 1];
      OverlayKeepsKeysDistinct(target, front);
      hide Find;
    }
  }

  lemma TargetKeeps(P: Json -> bool, spec: Json, ref: string)
    requires forall n, m | P(n) && n.Object? && m in n.fields :: P(m.value)
    requires P(spec) && |ref| >= 2
    ensures Target(spec, ref).Some? ==> P(Target(spec, ref).value)
  {
    WalkKeeps(P, spec, Split(ref[2..], '/'));
  }

  lemma ReferenceIsInside(fields: seq<Member>, i: nat)
    requires i < |fields| && fields[i].key == REF && fields[i].value.Text?
    ensures fields[i].value.s in RefsInFields(fields)
  {
    RefsOfField(fields, i);
  }

  // ---------------------------------------------------------------- what siblings without references leave alone

  lemma {:induction false} NoRefsIsPlain(node: Json)
    requires RefsIn(node) == {}
    ensures PlainSiblings(node)
    decreases node
  {
    if node.Object? {
      forall m | m in node.fields ensures RefsIn(m.value) == {} && PlainSiblings(m.value) {
        var i :| 0 <= i < |node.fields| && node.fields[i] == m;
        RefsOfField(node.fields, i);
        NoRefsIsPlain(m.value);
      }
    }
  }

  lemma {:induction false} PlainOverlay(target: seq<Member>, siblings: seq<Member>)
    requires forall m | m in siblings && m.key != REF :: RefsIn(m.value) == {}
    ensures RefsInFields(Overlay(target, siblings)) <= RefsInFields(target)
  {
    if siblings != [] {
      var front, last := siblings[..|siblings| - 1], siblings[|siblings| - 1];
      assert siblings == front + [last];
      PlainOverlay(target, front);
      if last.key != REF {
        RefsOfSet(Overlay(target, front), last);
        hide RefsInFields, Set;
        assert RefsInMember(last) == {};
      }
    }
  }

  lemma MergedIsPlain(target: seq<Member>, siblings: seq<Member>)
    requires PlainSiblings(Object(target))
    requires forall m | m in siblings && m.key != REF :: RefsIn(m.value) == {}
    ensures PlainSiblings(Object(Overlay(target, siblings)))
  {
    OverlayMembers(target, siblings);
    OverlayLookup(target, siblings, REF);
    hide Overlay, Find, RefsIn;
    forall m | m in siblings && m.key != REF ensures PlainSiblings(m.value) {
      NoRefsIsPlain(m.value);
    }
  }

  /** What holds whenever resolution looks at a node: the stack leads to its references, the roots reach them. */
  ghost predicate OnTrack(edges: set<(string, string)>, roots: set<string>, stack: set<string>, refs: set<string>) {
    && (forall q, s | q in stack && s in refs :: Leads(edges, q, s))
    && (forall s | s in refs :: Reached(edges, roots, s))
  }

  lemma OnTrackBelow(spec: Json, universe: set<string>, roots: set<string>, stack: set<string>, ref: string,
                     target: Json)
    requires RefsIn(spec) <= universe && ref in universe && |ref| >= 2 && Target(spec, ref) == Some(target)
    requires RefsIn(target) <= universe
    requires OnTrack(RefEdges(spec, universe), roots, stack, {ref})
    ensures OnTrack(RefEdges(spec, universe), roots, stack + {ref}, RefsIn(target))
  {
    var edges := RefEdges(spec, universe);
    forall s | s in RefsIn(target)
      ensures Reached(edges, roots, s) && forall q | q in stack + {ref} :: Leads(edges, q, s)
    {
      assert (ref, s) in edges;
      EdgeLeads(edges, ref, s);
      hide Leads, HasPath, RefEdges;
      var r :| r in roots && HasPath(edges, r, ref);
      assert HasPath(edges, r, s);
      forall q | q in stack ensures Leads(edges, q, s) {
        assert Leads(edges, q, ref);
      }
    }
  }

  /**
   When no sibling carries a reference, a reported cycle is one: the reference leads back to itself and
   the node reaches it.
   */
  lemma {:induction false} CircularIsReal(spec: Json, node: Json, stack: set<string>, universe: set<string>,
                                          roots: set<string>)
    requires RefsIn(spec) <= universe && RefsIn(node) <= universe
    requires PlainSiblings(spec) && PlainSiblings(node)
    requires OnTrack(RefEdges(spec, universe), roots, stack, RefsIn(node))
    ensures match Resolve(spec, node, stack, universe)
      case Failure(Circular(ref)) =>
        CycleThrough(RefEdges(spec, universe), ref) && Reached(RefEdges(spec, universe), roots, ref)
      case _ => true
    decreases |universe - stack|, node, 1
  {
    if node.Object? {
      var i := Find(node.fields, REF);
      if i == |node.fields| {
        CircularFieldIsReal(spec, node.fields, stack, universe, roots);
      } else if IsLocal(node.fields[i].value) {
        var ref := node.fields[i].value.s;
        var target := Target(spec, ref);
        ReferenceIsInside(node.fields, i);
        hide RefEdges, Leads, Reached, CycleThrough, PlainSiblings, Target, Overlay, RefsInFields;
        if ref in stack {
          RepeatedReference(RefEdges(spec, universe), ref);
        } else if target.Some? && target.value.Object? {
          NextRound(node.fields, i, stack, universe);
          MergedIsOnTrack(spec, node, stack, universe, roots, ref, target.value);
          CircularIsReal(spec, Object(Overlay(target.value.fields, node.fields)), stack + {ref}, universe, roots);
        }
      }
    }
  }

  lemma MergedIsOnTrack(spec: Json, node: Json, stack: set<string>, universe: set<string>, roots: set<string>,
                        ref: string, target: Json)
    requires RefsIn(spec) <= universe && RefsIn(node) <= universe && PlainSiblings(spec) && PlainSiblings(node)
    requires node.Object? && Field(node.fields, REF) == Some(Text(ref)) && ref in RefsIn(node)
    requires |ref| >= 2 && Target(spec, ref) == Some(target) && target.Object?
    requires OnTrack(RefEdges(spec, universe), roots, stack, RefsIn(node))
    ensures var merged := Object(Overlay(target.fields, node.fields));
      && RefsIn(merged) <= universe && PlainSiblings(merged)
      && OnTrack(RefEdges(spec, universe), roots, stack + {ref}, RefsIn(merged))
  {
    RefsOfMerged(spec, node.fields, target, ref);
    RefsOfWalk(spec, Split(ref[2..], '/'));
    TargetKeeps(n => PlainSiblings(n), spec, ref);
    hide RefEdges, Leads, Reached, Target, Overlay, RefsInFields;
    OnTrackBelow(spec, universe, roots, stack, ref, target);
    PlainOverlay(target.fields, node.fields);
    MergedIsPlain(target.fields, node.fields);
  }

  lemma RepeatedReference(edges: set<(string, string)>, ref: string)
    requires Leads(edges, ref, ref)
    ensures CycleThrough(edges, ref)
  {
    var w :| IsWalk(edges, w) && |w| >= 2 && w[0] == ref && w[|w| - 1] == ref;
    assert IsCycle(edges, w);
  }

  lemma {:induction false} CircularFieldIsReal(spec: Json, fields: seq<Member>, stack: set<string>,
                                               universe: set<string>, roots: set<string>)
    requires RefsIn(spec) <= universe && RefsInFields(fields) <= universe
    requires PlainSiblings(spec) && forall m | m in fields :: PlainSiblings(m.value)
    requires OnTrack(RefEdges(spec, universe), roots, stack, RefsInFields(fields))
    ensures match ResolveFields(spec, fields, stack, universe)
      case Failure(Circular(ref)) =>
        CycleThrough(RefEdges(spec, universe), ref) && Reached(RefEdges(spec, universe), roots, ref)
      case _ => true
    decreases |universe - stack|, fields, 0
  {
    if fields != [] {
      RefsOfField(fields, 0);
      assert fields[0] in fields;
      hide Leads, Reached, RefEdges, CycleThrough;
      CircularIsReal(spec, fields[0].value, stack, universe, roots);
      CircularFieldIsReal(spec, fields[1..], stack, universe, roots);
    }
  }

  // ---------------------------------------------------------------- what siblings that hide nothing leave visible

  lemma {:induction false} RefHasMember(fields: seq<Member>, ref: string)
    requires ref in RefsInFields(fields)
    ensures exists j :: 0 <= j < |fields| && ref in RefsInMember(fields[j])
  {
    if ref !in RefsInMember(fields[0]) {
      RefHasMember(fields[1..], ref);
      var j :| 0 <= j < |fields[1..]| && ref in RefsInMember(fields[1..][j]);
      assert fields[j + 1] == fields[1..][j];
    }
  }

  lemma FieldRefs(fields: seq<Member>, key: string, value: Json)
    requires Field(fields, key) == Some(value)
    ensures RefsInMember(Member(key, value)) <= RefsInFields(fields)
  {
    RefsOfField(fields, Find(fields, key));
  }

  lemma {:induction false} LastSiblingIs(siblings: seq<Member>, i: nat)
    requires DistinctMembers(siblings) && i < |siblings|
    ensures LastSibling(siblings, siblings[i].key) == Some(siblings[i].value)
  {
    if i < |siblings| - 1 {
      LastSiblingIs(siblings[..|siblings| - 1], i);
    }
  }

  lemma {:induction false} LastSiblingComesFrom(siblings: seq<Member>, key: string)
    ensures LastSibling(siblings, key).Some? ==> Member(key, LastSibling(siblings, key).value) in siblings
  {
    if siblings != [] {
      LastSiblingComesFrom(siblings[..|siblings| - 1], key);
    }
  }

  /** Every reference of the target and of its siblings is still there. */
  lemma MergedKeepsRefs(target: seq<Member>, siblings: seq<Member>)
    requires DistinctMembers(target) && DistinctMembers(siblings)
    requires forall m | m in siblings && m.key != REF :: Harmless(Object(target), m)
    ensures RefsInFields(target) <= RefsInFields(Overlay(target, siblings))
    ensures forall m | m in siblings && m.key != REF :: RefsIn(m.value) <= RefsInFields(Overlay(target, siblings))
  {
    hide RefsInFields, RefsIn, Overlay, LastSibling, Find;
    var merged := Overlay(target, siblings);
    forall ref | ref in RefsInFields(target) ensures ref in RefsInFields(merged) {
      RefHasMember(target, ref);
      var j :| 0 <= j < |target| && ref in RefsInMember(target[j]);
      var key := target[j].key;
      FindIs(target, key, j);
      OverlayLookup(target, siblings, key);
      LastSiblingComesFrom(siblings, key);
      assert target[j] in target;
      assert Field(merged, key) == Some(target[j].value);
      FieldRefs(merged, key, target[j].value);
    }
    forall m | m in siblings && m.key != REF ensures RefsIn(m.value) <= RefsInFields(merged) {
      var i :| 0 <= i < |siblings| && siblings[i] == m;
      LastSiblingIs(siblings, i);
      OverlayLookup(target, siblings, m.key);
      FieldRefs(merged, m.key, m.value);
    }
  }

  lemma AliasInFront(spec: Json, r: string, s: string, t: string)
    requires IsAlias(spec, r, s) && AliasLeads(spec, s, t)
    ensures AliasLeads(spec, r, t)
  {
    var w :| AliasChain(spec, w) && w[0] == s && w[|w| - 1] == t;
    hide IsAlias;
    assert AliasChain(spec, [r] + w);
  }

  lemma AliasOfItself(spec: Json, r: string)
    ensures AliasLeads(spec, r, r)
  {
    assert AliasChain(spec, [r]);
  }

  lemma MergedKeepsReferences(spec: Json, ref: string, target: seq<Member>, siblings: seq<Member>)
    requires |ref| >= 2 && Target(spec, ref) == Some(Object(target))
    requires KeepsReferences(spec, Object(target)) && SiblingsHarmless(spec, siblings, ref)
    requires forall m | m in siblings :: KeepsReferences(spec, m.value)
    ensures KeepsReferences(spec, Object(Overlay(target, siblings)))
  {
    OverlayMembers(target, siblings);
    OverlayLookup(target, siblings, REF);
    hide Overlay, Find, AliasLeads, Harmless;
    var merged := Overlay(target, siblings);
    if Field(merged, REF).Some? && Field(merged, REF).value.Text? {
      var next := Field(merged, REF).value.s;
      assert IsAlias(spec, ref, next);
      forall s, m | AliasLeads(spec, next, s) && |s| >= 2 && Target(spec, s).Some? && m in merged && m.key != REF
        ensures Harmless(Target(spec, s).value, m)
      {
        AliasInFront(spec, ref, next, s);
      }
    }
  }

  lemma MergedHasDistinctKeys(target: seq<Member>, siblings: seq<Member>)
    requires HasDistinctKeys(Object(target)) && HasDistinctKeys(Object(siblings))
    ensures HasDistinctKeys(Object(Overlay(target, siblings)))
  {
    OverlayMembers(target, siblings);
    OverlayKeepsKeysDistinct(target, siblings);
  }

  /** A reference of the object is its own, or one of a sibling. */
  lemma OwnOrSibling(fields: seq<Member>, ref: string)
    requires DistinctMembers(fields) && ref in RefsInFields(fields)
    requires Field(fields, REF).Some? && Field(fields, REF).value.Text?
    ensures Field(fields, REF) == Some(Text(ref)) || exists m :: m in fields && m.key != REF && ref in RefsIn(m.value)
  {
    RefHasMember(fields, ref);
    var j :| 0 <= j < |fields| && ref in RefsInMember(fields[j]);
    hide RefsInFields, Find;
    var m := fields[j];
    assert m in fields;
    if m.key == REF {
      FindIs(fields, REF, j);
    }
  }

  /**
   Where siblings hide no reference and resolution succeeds, no chain of references from the node is
   longer than the references left.
   */
  lemma {:induction false} SuccessBoundsChains(spec: Json, node: Json, stack: set<string>, universe: set<string>,
                                               chain: seq<string>)
    requires RefsIn(spec) <= universe && RefsIn(node) <= universe
    requires HasDistinctKeys(spec) && HasDistinctKeys(node)
    requires KeepsReferences(spec, spec) && KeepsReferences(spec, node)
    requires Resolve(spec, node, stack, universe).Success?
    requires IsWalk(RefEdges(spec, universe), chain) && chain[0] in RefsIn(node)
    ensures |chain| <= |universe - stack|
    decreases |universe - stack|, node, 1
  {
    var i := Find(node.fields, REF);
    if i == |node.fields| {
      FieldWithRef(node.fields, chain[0]);
      var j :| 0 <= j < |node.fields| && chain[0] in RefsIn(node.fields[j].value);
      RefsOfField(node.fields, j);
      assert node.fields[j] in node.fields;
      FieldsResolved(spec, node.fields, stack, universe, j);
      SuccessBoundsChains(spec, node.fields[j].value, stack, universe, chain);
    } else {
      var ref := node.fields[i].value.s;
      var target := Target(spec, ref).value;
      NextRound(node.fields, i, stack, universe);
      OwnOrSibling(node.fields, chain[0]);
      AliasOfItself(spec, ref);
      if |chain| > 1 { ChainStep(spec, universe, chain); }
      hide RefEdges, KeepsReferences, HasDistinctKeys;
      if target.Object? {
        var merged := Object(Overlay(target.fields, node.fields));
        RefsOfMerged(spec, node.fields, target, ref);
        MergedIsGuarded(spec, node, ref);
        if chain[0] in RefsIn(merged) {
          SuccessBoundsChains(spec, merged, stack + {ref}, universe, chain);
        } else if |chain| > 1 {
          SuccessBoundsChains(spec, merged, stack + {ref}, universe, chain[1..]);
        }
      } else {
        DroppedSiblings(spec, node, ref);
      }
    }
  }

  lemma ChainStep(spec: Json, universe: set<string>, chain: seq<string>)
    requires IsWalk(RefEdges(spec, universe), chain) && |chain| > 1
    ensures IsWalk(RefEdges(spec, universe), chain[1..])
    ensures |chain[0]| >= 2 && Target(spec, chain[0]).Some? && chain[1] in RefsIn(Target(spec, chain[0]).value)
  {
    assert (chain[0], chain[1]) in RefEdges(spec, universe);
    hide RefEdges;
  }

  /** The next round meets the same guards, and every reference of the target and of the siblings. */
  lemma MergedIsGuarded(spec: Json, node: Json, ref: string)
    requires node.Object? && Field(node.fields, REF) == Some(Text(ref)) && |ref| >= 2
    requires Target(spec, ref).Some? && Target(spec, ref).value.Object?
    requires HasDistinctKeys(spec) && HasDistinctKeys(node)
    requires KeepsReferences(spec, spec) && KeepsReferences(spec, node)
    ensures var target := Target(spec, ref).value;
      var merged := Object(Overlay(target.fields, node.fields));
      && HasDistinctKeys(merged) && KeepsReferences(spec, merged)
      && RefsIn(target) <= RefsIn(merged)
      && forall m | m in node.fields && m.key != REF :: RefsIn(m.value) <= RefsIn(merged)
  {
    var target := Target(spec, ref).value;
    TargetKeeps(n => HasDistinctKeys(n), spec, ref);
    TargetKeeps(n => KeepsReferences(spec, n), spec, ref);
    AliasOfItself(spec, ref);
    hide RefsInFields, Overlay, AliasLeads, Field, Target;
    forall m | m in node.fields && m.key != REF ensures Harmless(Object(target.fields), m) {
      assert Harmless(Target(spec, ref).value, m);
    }
    MergedHasDistinctKeys(target.fields, node.fields);
    MergedKeepsRefs(target.fields, node.fields);
    MergedKeepsReferences(spec, ref, target.fields, node.fields);
  }

  /** Siblings of a reference to something else than an object are dropped, and here they carry no reference. */
  lemma DroppedSiblings(spec: Json, node: Json, ref: string)
    requires node.Object? && Field(node.fields, REF) == Some(Text(ref)) && |ref| >= 2
    requires Target(spec, ref).Some? && !Target(spec, ref).value.Object? && KeepsReferences(spec, node)
    ensures forall m | m in node.fields && m.key != REF :: RefsIn(m.value) == {}
    ensures RefsIn(Target(spec, ref).value) == {}
  {
    AliasOfItself(spec, ref);
    hide AliasLeads, Field, Target;
    forall m | m in node.fields && m.key != REF ensures RefsIn(m.value) == {} {
      assert Harmless(Target(spec, ref).value, m);
    }
  }

  lemma {:induction false} FieldWithRef(fields: seq<Member>, ref: string)
    requires ref in RefsInFields(fields) && forall i | 0 <= i < |fields| :: fields[i].key != REF
    ensures exists j :: 0 <= j < |fields| && ref in RefsIn(fields[j].value)
  {
    if ref !in RefsInMember(fields[0]) {
      FieldWithRef(fields[1..], ref);
      var j :| 0 <= j < |fields[1..]| && ref in RefsIn(fields[1..][j].value);
      assert fields[j + 1] == fields[1..][j];
    }
  }

  lemma {:induction false} FieldsResolved(spec: Json, fields: seq<Member>, stack: set<string>, universe: set<string>,
                                          j: nat)
    requires RefsIn(spec) <= universe && RefsInFields(fields) <= universe && j < |fields|
    requires ResolveFields(spec, fields, stack, universe).Success?
    ensures RefsIn(fields[j].value) <= universe && Resolve(spec, fields[j].value, stack, universe).Success?
  {
    RefsOfField(fields, 0);
    RefsOfField(fields, j);
    if j > 0 {
      FieldsResolved(spec, fields[1..], stack, universe, j - 1);
    }
  }

  /** A cycle can be walked round as often as one likes. */
  lemma {:induction false} LongWalk(edges: set<(string, string)>, cycle: seq<string>, n: nat) returns (w: seq<string>)
    requires IsCycle(edges, cycle)
    ensures IsWalk(edges, w) && |w| > n && w[0] == cycle[0]
  {
    if n == 0 {
      w := [cycle[0]];
    } else {
      var rest := LongWalk(edges, cycle, n - 1);
      var lap := cycle[..|cycle| - 1];
      assert (cycle[|cycle| - 2], cycle[|cycle| - 2 + 1]) in edges;
      assert IsWalk(edges, lap);
      JoinWalks(edges, lap, rest);
      w := lap + rest;
    }
  }

  /** Where siblings hide no reference, one that leads into a real cycle makes resolution fail. */
  lemma ReachedCycleFails(spec: Json, node: Json, universe: set<string>, ref: string)
    requires RefsIn(spec) <= universe && RefsIn(node) <= universe
    requires HasDistinctKeys(spec) && HasDistinctKeys(node)
    requires KeepsReferences(spec, spec) && KeepsReferences(spec, node)
    requires CycleThrough(RefEdges(spec, universe), ref) && Reached(RefEdges(spec, universe), RefsIn(node), ref)
    ensures Resolve(spec, node, {}, universe).Failure?
  {
    var edges := RefEdges(spec, universe);
    var cycle :| IsCycle(edges, cycle) && cycle[0] == ref;
    var start :| start in RefsIn(node) && HasPath(edges, start, ref);
    var path :| IsWalk(edges, path) && path[0] == start && path[|path| - 1] == ref;
    var laps := LongWalk(edges, cycle, |universe| + 1);
    var chain := path + laps[1..];
    if |laps| > 1 {
      assert (laps[0], laps[1]) in edges && IsWalk(edges, laps[1..]);
      JoinWalks(edges, path, laps[1..]);
    }
    assert universe - {} == universe;
    if Resolve(spec, node, {}, universe).Success? {
      SuccessBoundsChains(spec, node, {}, universe, chain);
    }
  }

  /** All references are local and have a target. */
  ghost predicate RefsAreGood(spec: Json, node: Json)
    decreases node
  {
    node.Object? ==>
      && (Find(node.fields, REF) < |node.fields| ==>
            var ref := node.fields[Find(node.fields, REF)].value; IsLocal(ref) && Target(spec, ref.s).Some?)
      && forall m | m in node.fields :: RefsAreGood(spec, m.value)
  }

  lemma MergedIsGood(spec: Json, target: seq<Member>, siblings: seq<Member>)
    requires RefsAreGood(spec, Object(target)) && forall m | m in siblings :: RefsAreGood(spec, m.value)
    ensures RefsAreGood(spec, Object(Overlay(target, siblings)))
  {
    OverlayMembers(target, siblings);
    OverlayLookup(target, siblings, REF);
    hide Overlay, Find, IsLocal, Target;
  }

  /** When every reference is local and has a target, only cycles fail, whatever the siblings are. */
  lemma {:induction false} OnlyCyclesFail(spec: Json, node: Json, stack: set<string>, universe: set<string>)
    requires RefsIn(spec) <= universe && RefsIn(node) <= universe
    requires RefsAreGood(spec, spec) && RefsAreGood(spec, node)
    ensures Resolve(spec, node, stack, universe).Failure? ==> Resolve(spec, node, stack, universe).error.Circular?
    decreases |universe - stack|, node, 1
  {
    if node.Object? {
      var i := Find(node.fields, REF);
      if i == |node.fields| {
        OnlyCyclesFailInFields(spec, node.fields, stack, universe);
      } else {
        var ref := node.fields[i].value.s;
        var target := Target(spec, ref);
        if ref !in stack && target.value.Object? {
          NextRound(node.fields, i, stack, universe);
          RefsOfMerged(spec, node.fields, target.value, ref);
          TargetKeeps(n => RefsAreGood(spec, n), spec, ref);
          MergedIsGood(spec, target.value.fields, node.fields);
          OnlyCyclesFail(spec, Object(Overlay(target.value.fields, node.fields)), stack + {ref}, universe);
        }
      }
    }
  }

  lemma {:induction false} OnlyCyclesFailInFields(spec: Json, fields: seq<Member>, stack: set<string>,
                                                  universe: set<string>)
    requires RefsIn(spec) <= universe && RefsInFields(fields) <= universe
    requires RefsAreGood(spec, spec) && forall m | m in fields :: RefsAreGood(spec, m.value)
    ensures var r := ResolveFields(spec, fields, stack, universe); r.Failure? ==> r.error.Circular?
    decreases |universe - stack|, fields, 0
  {
    if fields != [] {
      RefsOfField(fields, 0);
      assert fields[0] in fields;
      OnlyCyclesFail(spec, fields[0].value, stack, universe);
      OnlyCyclesFailInFields(spec, fields[1..], stack, universe);
    }
  }

  /**
   For documents whose references are local and have targets, and whose siblings neither carry nor hide
   a reference, resolution succeeds exactly when no reference of the node leads into a cycle.
   */
  lemma SucceedsIffAcyclic(spec: Json, node: Json)
    requires RefsAreGood(spec, spec) && RefsAreGood(spec, node)
    requires PlainSiblings(spec) && PlainSiblings(node)
    requires HasDistinctKeys(spec) && HasDistinctKeys(node)
    requires KeepsReferences(spec, spec) && KeepsReferences(spec, node)
    ensures var universe := Universe(spec, node);
      Resolve(spec, node, {}, universe).Success? <==>
        forall ref :: !(CycleThrough(RefEdges(spec, universe), ref) && Reached(RefEdges(spec, universe), RefsIn(node), ref))
  {
    var universe := Universe(spec, node);
    var edges := RefEdges(spec, universe);
    forall s | s in RefsIn(node) ensures Reached(edges, RefsIn(node), s) {
      PathByWalk(edges, [s]);
    }
    OnlyCyclesFail(spec, node, {}, universe);
    CircularIsReal(spec, node, {}, universe, RefsIn(node));
    forall ref | CycleThrough(edges, ref) && Reached(edges, RefsIn(node), ref)
      ensures Resolve(spec, node, {}, universe).Failure?
    {
      ReachedCycleFails(spec, node, universe, ref);
    }
  }

  const LOOP := Member(REF, Text("#/a"))

  lemma PathOfA(a: Json)
    ensures Target(Object([Member("a", a)]), "#/a") == Some(a)
    ensures forall m :: Target(Object([Member("a", a), m]), "#/a") == Some(a)
  {
    var path := "#/a"[2..];
    assert path == "a" && path[1..] == "" && Split("", '/') == [""];
    var rest := Split(path[1..], '/');
    assert rest == [""] && rest[1..] == [] && [path[0]] + rest[0] == "a";
    assert Split(path, '/') == ["a"];
    var fields := [Member("a", a)];
    assert Find(fields, "a") == 0;
    var parts := ["a"];
    assert parts[1..] == [] && parts[0] == "a";
    assert Walk(Object(fields), parts) == Some(a);
    forall m ensures Walk(Object([Member("a", a), m]), parts) == Some(a) {
      assert Find([Member("a", a), m], "a") == 0;
    }
  }

  lemma PathOfNothing(a: Json, b: Json)
    ensures Target(Object([Member("a", a), Member("", b)]), "#/") == Some(b)
  {
    assert "#/"[2..] == "" && Split("", '/') == [""];
    var fields, parts := [Member("a", a), Member("", b)], [""];
    assert fields[1..] == [Member("", b)] && "a" != "";
    FindIs(fields, "", 1);
    assert parts[1..] == [] && Walk(Object(fields), parts) == Some(b);
  }

  lemma OneField(m: Member)
    ensures RefsInFields([m]) == RefsInMember(m)
    ensures forall n :: RefsInFields([m, n]) == RefsInMember(m) + RefsInMember(n)
  {
    assert [m][1..] == [];
    forall n ensures RefsInFields([m, n]) == RefsInMember(m) + RefsInMember(n) {
      assert [m, n][1..] == [n] && [n][1..] == [];
      assert RefsInFields([n]) == RefsInMember(n);
    }
  }

  /** Apart from its siblings, the one node with a reference to "#/a" meets every guard. */
  ghost predicate OtherwiseGood(spec: Json, node: Json) {
    && RefsAreGood(spec, spec) && RefsAreGood(spec, node)
    && HasDistinctKeys(spec) && HasDistinctKeys(node)
  }

  lemma OnlyItself(spec: Json, a: Json, s: string)
    requires Target(spec, "#/a") == Some(a) && a.Object? && Find(a.fields, REF) == |a.fields|
    requires AliasLeads(spec, "#/a", s)
    ensures s == "#/a"
  {
    var w :| AliasChain(spec, w) && w[0] == "#/a" && w[|w| - 1] == s;
    assert |w| > 1 ==> !IsAlias(spec, w[0], w[0 + 1]);
  }

  /** A sibling with a reference may make resolution report a cycle that is none: here the target refers to nothing. */
  lemma SiblingFakesCycle()
    ensures
      var spec := Object([Member("a", Object([]))]);
      var node := Object([LOOP, Member("x", Object([LOOP]))]);
      && RefsIn(spec) <= {"#/a"} && RefsIn(node) <= {"#/a"}
      && OtherwiseGood(spec, node) && KeepsReferences(spec, spec) && KeepsReferences(spec, node)
      && RefEdges(spec, {"#/a"}) == {} && !PlainSiblings(node)
      && Resolve(spec, node, {}, {"#/a"}) == Failure(Circular("#/a"))
  {
    var inner := Object([LOOP]);
    var x := Member("x", inner);
    var spec, node := Object([Member("a", Object([]))]), Object([LOOP, x]);
    OneField(LOOP);
    OneField(Member("a", Object([])));
    OneField(x);
    PathOfA(Object([]));
    assert IsLocal(LOOP.value);
    assert Find(node.fields, REF) == 0;
    assert node.fields[..1] == [LOOP] && [LOOP][..0] == [];
    var none: seq<Member> := [];
    assert Find(none, x.key) == 0 && none + [x] == [x];
    assert Set(none, x) == [x];
    assert Overlay(none, [LOOP]) == none;
    assert Overlay(none, node.fields) == [x];
    assert Find([x], REF) == 1;
    assert Find(inner.fields, REF) == 0;
    FakingGuards(spec, node, x);
    assert Resolve(spec, inner, {} + {"#/a"}, {"#/a"}) == Failure(Circular("#/a"));
    assert ResolveFields(spec, [x], {} + {"#/a"}, {"#/a"}) == Failure(Circular("#/a"));
  }

  lemma KeyIsNoRef()
    ensures "x" != REF && "a" != REF && IsLocal(LOOP.value)
  {
    assert REF[0] == '$' && "x"[0] == 'x' && "a"[0] == 'a';
  }

  lemma GuardsOfLeaf(spec: Json, leaf: Json)
    requires !leaf.Object? || leaf.fields == []
    ensures RefsAreGood(spec, leaf) && HasDistinctKeys(leaf) && PlainSiblings(leaf) && KeepsReferences(spec, leaf)
    ensures RefsIn(leaf) == {}
  {
  }

  lemma GuardsOfOne(spec: Json, m: Member)
    requires m.key != REF
    ensures RefsAreGood(spec, Object([m])) <==> RefsAreGood(spec, m.value)
    ensures HasDistinctKeys(Object([m])) <==> HasDistinctKeys(m.value)
    ensures PlainSiblings(Object([m])) <==> PlainSiblings(m.value)
    ensures KeepsReferences(spec, Object([m])) <==> KeepsReferences(spec, m.value)
    ensures RefsIn(Object([m])) == RefsIn(m.value)
  {
    OneField(m);
    FindIs([m], REF, 1);
    assert forall n :: n in [m] <==> n == m;
    hide RefsInFields, SiblingsHarmless, Find;
  }

  lemma GuardsOfLoop(spec: Json)
    ensures RefsAreGood(spec, Object([LOOP])) <==> Target(spec, "#/a").Some?
    ensures HasDistinctKeys(Object([LOOP])) && PlainSiblings(Object([LOOP]))
    ensures KeepsReferences(spec, Object([LOOP])) && RefsIn(Object([LOOP])) == {"#/a"}
  {
    OneField(LOOP);
    KeyIsNoRef();
    GuardsOfLeaf(spec, LOOP.value);
    FindIs([LOOP], REF, 0);
    assert forall n :: n in [LOOP] <==> n == LOOP;
    hide RefsInFields, Find, Target, AliasLeads;
  }

  lemma GuardsOfLoopAnd(spec: Json, m: Member)
    requires m.key != REF
    ensures RefsAreGood(spec, Object([LOOP, m])) <==> Target(spec, "#/a").Some? && RefsAreGood(spec, m.value)
    ensures HasDistinctKeys(Object([LOOP, m])) <==> HasDistinctKeys(m.value)
    ensures PlainSiblings(Object([LOOP, m])) <==> RefsIn(m.value) == {} && PlainSiblings(m.value)
    ensures KeepsReferences(spec, Object([LOOP, m])) <==>
      SiblingsHarmless(spec, [LOOP, m], "#/a") && KeepsReferences(spec, m.value)
  {
    KeyIsNoRef();
    GuardsOfLeaf(spec, LOOP.value);
    FindIs([LOOP, m], REF, 0);
    assert forall n :: n in [LOOP, m] <==> n == LOOP || n == m;
    hide RefsInFields, Find, Target, SiblingsHarmless;
  }

  lemma FakingGuards(spec: Json, node: Json, x: Member)
    requires spec == Object([Member("a", Object([]))]) && x == Member("x", Object([LOOP])) && node == Object([LOOP, x])
    ensures OtherwiseGood(spec, node) && KeepsReferences(spec, spec) && KeepsReferences(spec, node)
    ensures RefEdges(spec, {"#/a"}) == {} && !PlainSiblings(node)
  {
    var a := Object([]);
    KeyIsNoRef();
    PathOfA(a);
    GuardsOfLeaf(spec, a);
    GuardsOfOne(spec, Member("a", a));
    GuardsOfLoop(spec);
    GuardsOfLoopAnd(spec, x);
    FindIs(a.fields, REF, 0);
    hide Target, RefsIn, Find, AliasLeads, RefsAreGood, HasDistinctKeys, PlainSiblings, KeepsReferences;
    forall s | AliasLeads(spec, "#/a", s) ensures s == "#/a" {
      OnlyItself(spec, a, s);
    }
    assert SiblingsHarmless(spec, node.fields, "#/a");
  }

  /** A sibling that replaces a field with a reference may hide a cycle: here it replaces the field that refers back. */
  lemma SiblingHidesCycle()
    ensures
      var spec := Object([Member("a", Object([Member("x", Object([LOOP]))]))]);
      var node := Object([LOOP, Member("x", Other(1))]);
      && RefsIn(spec) <= {"#/a"} && RefsIn(node) <= {"#/a"}
      && OtherwiseGood(spec, node) && PlainSiblings(spec) && PlainSiblings(node)
      && RefersTo(spec, "#/a", "#/a") && !KeepsReferences(spec, node)
      && Resolve(spec, node, {}, {"#/a"}) == Success(Object([Member("x", Other(1))]))
  {
    var x, y := Member("x", Object([LOOP])), Member("x", Other(1));
    var target := Object([x]);
    var spec, node := Object([Member("a", target)]), Object([LOOP, y]);
    OneField(LOOP);
    OneField(Member("a", target));
    OneField(x);
    PathOfA(target);
    HidingGuards(spec, node, x, y);
    HidingOverlay(x, y);
    hide Overlay, RefsAreGood, HasDistinctKeys, PlainSiblings, KeepsReferences, RefsInFields, Target;
    assert ResolveFields(spec, [y], {} + {"#/a"}, {"#/a"}) == Success([y]) by {
      assert [y][1..] == [] && [Member("x", Other(1))] + [] == [y];
    }
  }

  lemma HidingOverlay(x: Member, y: Member)
    requires x.key == y.key == "x"
    ensures Overlay([x], [LOOP, y]) == [y] && Find([y], REF) == 1 && Find([LOOP, y], REF) == 0 && IsLocal(LOOP.value)
  {
    KeyIsNoRef();
    FindIs([y], REF, 1);
    FindIs([LOOP, y], REF, 0);
    FindIs([x], "x", 0);
    hide Find;
    assert [LOOP, y][..1] == [LOOP] && [LOOP][..0] == [] && [x][0 := y] == [y];
    var below: seq<Member> := [];
    assert Overlay([x], below) == [x];
    assert Overlay([x], [LOOP]) == [x];
    assert Find([x], y.key) == 0;
    assert Set([x], y) == [x][0 := y];
  }

  lemma HidingGuards(spec: Json, node: Json, x: Member, y: Member)
    requires x == Member("x", Object([LOOP])) && y == Member("x", Other(1))
    requires spec == Object([Member("a", Object([x]))]) && node == Object([LOOP, y])
    ensures OtherwiseGood(spec, node) && PlainSiblings(spec) && PlainSiblings(node) && !KeepsReferences(spec, node)
  {
    var a := Object([x]);
    KeyIsNoRef();
    PathOfA(a);
    GuardsOfLeaf(spec, y.value);
    GuardsOfLoop(spec);
    GuardsOfOne(spec, x);
    GuardsOfOne(spec, Member("a", a));
    GuardsOfLoopAnd(spec, y);
    AliasOfItself(spec, "#/a");
    hide Target, RefsIn, Find, AliasLeads, RefsAreGood, HasDistinctKeys, PlainSiblings, KeepsReferences;
    assert x in a.fields && y in node.fields;
    assert !Harmless(Target(spec, "#/a").value, y);
  }

  /** A reference to something else than an object drops its siblings, and with them whatever they refer to. */
  lemma DroppedSiblingHidesCycle()
    ensures
      var spec := Object([Member("a", Object([LOOP])), Member("", Other(5))]);
      var node := Object([Member(REF, Text("#/")), Member("x", Object([LOOP]))]);
      var universe := {"#/", "#/a"};
      && RefsIn(spec) <= universe && RefsIn(node) <= universe
      && "#/a" in RefsIn(node) && RefersTo(spec, "#/a", "#/a")
      && Resolve(spec, node, {}, universe) == Success(Other(5))
  {
    var spec := Object([Member("a", Object([LOOP])), Member("", Other(5))]);
    var own, x := Member(REF, Text("#/")), Member("x", Object([LOOP]));
    OneField(LOOP);
    OneField(own);
    OneField(Member("a", Object([LOOP])));
    PathOfA(Object([LOOP]));
    PathOfNothing(Object([LOOP]), Other(5));
    assert IsLocal(own.value) && Find([own, x], REF) == 0;
  }
}

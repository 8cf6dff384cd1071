/**
 * `generateCSSVariables`: a token map is walked depth-first and every leaf
 * -- an object that has a `value` key -- becomes one CSS custom-property
 * declaration inside a `:root { ... }` block.
 */
module CssVariables {
  import opened Wrappers
  import opened JsStrings
  import opened JsObjects

  /** A JavaScript value, as far as the flattener can tell values apart. */
  datatype Value =
    | Prim(text: string)                  // any value whose `typeof` is not "object", with its template-literal text
    | Null                                // `null`, whose `typeof` is "object"
    | Obj(entries: seq<(string, Value)>)  // an object, with its `Object.entries` in order

  /** The exception `'value' in null` raises. */
  datatype JsError = InOperatorOnNull

  const DefaultPrefix := "br"

  /** `'value' in obj` for an object. */
  predicate IsLeaf(v: Value) {
    v.Obj? && Lookup(v.entries, "value").Some?
  }

  /** The template-literal text `${x}` of a value. */
  function Render(v: Value): string {
    match v
    case Prim(t) => t
    case Null => "null"
    case Obj(_) => "[object Object]"
  }

  /** The text of a leaf's `value` field. */
  function LeafText(v: Value): string
    requires IsLeaf(v)
  {
    Render(Lookup(v.entries, "value").value)
  }

  /** `--${prefix}-${path.join('-')}` */
  function VarName(prefix: string, path: seq<string>): string {
    "--" + prefix + "-" + Join(path, "-")
  }

  /** The declaration pushed for one leaf. */
  function LeafLine(prefix: string, path: seq<string>, text: string): string {
    "  " + VarName(prefix, path) + ": " + text + ";"
  }

  /** `xss[0] + xss[1] + ...` */
  function Concat<T>(xss: seq<seq<T>>): seq<T>
  {
    if xss == [] then [] else xss[0] + Concat(xss[1..])
  }

  lemma {:induction false} ConcatAppend<T>(xss: seq<seq<T>>, yss: seq<seq<T>>)
    ensures Concat(xss + yss) == Concat(xss) + Concat(yss)
  {
    if xss == [] {
      assert xss + yss == yss;
    } else {
      assert (xss + yss)[1..] == xss[1..] + yss;
      ConcatAppend(xss[1..], yss);
    }
  }

  /** Every element of every part is an element of the concatenation. */
  lemma {:induction false} ConcatAll<T>(xss: seq<seq<T>>, P: T -> bool)
    requires forall i, j :: 0 <= i < |xss| && 0 <= j < |xss[i]| ==> P(xss[i][j])
    ensures forall k :: 0 <= k < |Concat(xss)| ==> P(Concat(xss)[k])
  {
    if xss != [] {
      ConcatAll(xss[1..], P);
      forall k | 0 <= k < |Concat(xss)| ensures P(Concat(xss)[k]) {
        if k >= |xss[0]| {
          assert Concat(xss)[k] == Concat(xss[1..])[k - |xss[0]|];
        } else {
          assert Concat(xss)[k] == xss[0][k];
        }
      }
    }
  }

  /** A custom-property declaration in the prefix's namespace: `  --prefix-...;`. */
  predicate IsDeclaration(prefix: string, line: string) {
    "  --" + prefix + "-" <= line && |line| > 0 && line[|line| - 1] == ';'
  }

  /** Each entry's own lines, in entry order. */
  function ChildLines(prefix: string, path: seq<string>, v: Value): (r: seq<seq<string>>)
    requires v.Obj?
    ensures |r| == |v.entries|
    decreases v, 0
  {
    seq(|v.entries|, i requires 0 <= i < |v.entries| => Lines(prefix, path + [v.entries[i].0], v.entries[i].1))
  }

  /** The lines `flatten(v, path)` pushes, when it does not throw: each is a declaration. */
  function Lines(prefix: string, path: seq<string>, v: Value): (r: seq<string>)
    ensures forall i :: 0 <= i < |r| ==> IsDeclaration(prefix, r[i])
    decreases v, 1
  {
    match v
    case Obj(_) =>
      if IsLeaf(v) then
        var line := LeafLine(prefix, path, LeafText(v));
        assert line == "  --" + prefix + "-" + (Join(path, "-") + ": " + LeafText(v) + ";");
        [line]
      else
        var xss := ChildLines(prefix, path, v);
        assert forall i :: 0 <= i < |xss| ==> xss[i] == Lines(prefix, path + [v.entries[i].0], v.entries[i].1);
        ConcatAll(xss, line => IsDeclaration(prefix, line));
        Concat(xss)
    case _ => []
  }

  /** Whether `flatten(v)` throws: it meets `null` where it tests for a `value` key. */
  predicate Throws(v: Value)
    decreases v
  {
    match v
    case Null => true
    case Prim(_) => false
    case Obj(entries) => !IsLeaf(v) && exists i :: 0 <= i < |entries| && Throws(entries[i].1)
  }

  /**
   * `flatten(v, path)` with `vars` already pushed: a leaf pushes its one
   * declaration, an object recurses into its entries in order, anything else
   * pushes nothing. `ok` is false where the source throws.
   */
  method Flatten(prefix: string, path: seq<string>, v: Value, vars: seq<string>) returns (out: seq<string>, ok: bool)
    ensures ok <==> !Throws(v)
    ensures ok ==> out == vars + Lines(prefix, path, v)
    decreases v
  {
    match v {
      case Null =>
        return vars, false;
      case Prim(_) =>
        return vars, true;
      case Obj(entries) =>
        if Lookup(entries, "value").Some? {
          var name := VarName(prefix, path);
          return vars + ["  " + name + ": " + Render(Lookup(entries, "value").value) + ";"], true;
        }
        ghost var children := ChildLines(prefix, path, v);
        GroupFacts(prefix, path, v);
        out, ok := vars, true;
        var i := 0;
        while i < |entries|
          invariant 0 <= i <= |entries|
          invariant forall j :: 0 <= j < i ==> !Throws(entries[j].1)
          invariant out == vars + Concat(children[..i])
        {
          var key, child := entries[i].0, entries[i].1;
          ghost var before := out;
          out, ok := Flatten(prefix, path + [key], child, out);
          if !ok {
            assert Throws(entries[i].1);
            return;
          }
          assert children[i] == Lines(prefix, path + [key], child);
          assert out == before + children[i];
          ConcatSnoc(children, i);
          i := i + 1;
        }
        assert children[..i] == children;
    }
  }

  /** What the walk of a group (an object that is not a leaf) amounts to. */
  lemma GroupFacts(prefix: string, path: seq<string>, v: Value)
    requires v.Obj? && !IsLeaf(v)
    ensures Lines(prefix, path, v) == Concat(ChildLines(prefix, path, v))
    ensures Throws(v) <==> exists i :: 0 <= i < |v.entries| && Throws(v.entries[i].1)
  {
  }

  lemma ConcatSnoc<T>(xss: seq<seq<T>>, i: nat)
    requires i < |xss|
    ensures Concat(xss[..i + 1]) == Concat(xss[..i]) + xss[i]
  {
    assert xss[..i + 1] == xss[..i] + [xss[i]];
    ConcatAppend(xss[..i], [xss[i]]);
    assert Concat([xss[i]]) == xss[i] + Concat<T>([]);
  }

  /** The lines of the generated text: the block opener, one line per leaf, the closer. */
  function CssLines(prefix: string, tokens: Value): seq<string> {
    [":root {"] + Lines(prefix, [], tokens) + ["}"]
  }

  /** `generateCSSVariables(tokens, prefix)` */
  method GenerateCssVariables(tokens: Value, prefix: string := DefaultPrefix) returns (r: Result<string, JsError>)
    ensures r.Failure? <==> Throws(tokens)
    ensures r.Success? ==> r.value == Join(CssLines(prefix, tokens), "\n")
  {
    var vars := [":root {"];
    var ok;
    vars, ok := Flatten(prefix, [], tokens, vars);
    if !ok {
      return Failure(InOperatorOnNull);
    }
    vars := vars + ["}"];
    return Success(Join(vars, "\n"));
  }
}

/** What the generated declarations say about the token map they come from. */
module CssVariablesProperties {
  import opened Wrappers
  import opened JsStrings
  import opened JsObjects
  import opened CssVariables

  /** One leaf of a token map: the keys leading to it and the text of its `value`. */
  datatype LeafEntry = LeafEntry(path: seq<string>, text: string)

  function ChildLeaves(path: seq<string>, v: Value): (r: seq<seq<LeafEntry>>)
    requires v.Obj?
    ensures |r| == |v.entries|
    decreases v, 0
  {
    seq(|v.entries|, i requires 0 <= i < |v.entries| => Leaves(path + [v.entries[i].0], v.entries[i].1))
  }

  /** The leaves reached from `v` at `path`, depth-first in entry order, not looking inside a leaf. */
  function Leaves(path: seq<string>, v: Value): seq<LeafEntry>
    decreases v, 1
  {
    match v
    case Obj(_) =>
      if IsLeaf(v) then [LeafEntry(path, LeafText(v))]
      else Concat(ChildLeaves(path, v))
    case _ => []
  }

  /** `lines` is exactly one declaration per leaf, in the leaves' order. */
  predicate Declares(prefix: string, lines: seq<string>, leaves: seq<LeafEntry>) {
    |lines| == |leaves| &&
    forall i :: 0 <= i < |lines| ==> lines[i] == LeafLine(prefix, leaves[i].path, leaves[i].text)
  }

  lemma DeclaresAppend(prefix: string, a: seq<string>, b: seq<LeafEntry>, c: seq<string>, d: seq<LeafEntry>)
    requires Declares(prefix, a, b) && Declares(prefix, c, d)
    ensures Declares(prefix, a + c, b + d)
  {
    forall i | 0 <= i < |a + c| ensures (a + c)[i] == LeafLine(prefix, (b + d)[i].path, (b + d)[i].text) {
      if i >= |a| {
        assert (a + c)[i] == c[i - |a|];
        assert (b + d)[i] == d[i - |a|];
      }
    }
  }

  lemma {:induction false} DeclaresConcat(prefix: string, xss: seq<seq<string>>, yss: seq<seq<LeafEntry>>)
    requires |xss| == |yss|
    requires forall i :: 0 <= i < |xss| ==> Declares(prefix, xss[i], yss[i])
    ensures Declares(prefix, Concat(xss), Concat(yss))
  {
    if xss != [] {
      DeclaresConcat(prefix, xss[1..], yss[1..]);
      DeclaresAppend(prefix, xss[0], yss[0], Concat(xss[1..]), Concat(yss[1..]));
    }
  }

  /** The i-th line `flatten` pushes declares the i-th leaf: `  --prefix-k1-k2-...: value;`. */
  lemma {:induction false} LinesDeclareLeaves(prefix: string, path: seq<string>, v: Value)
    ensures Declares(prefix, Lines(prefix, path, v), Leaves(path, v))
    decreases v
  {
    if v.Obj? && !IsLeaf(v) {
      var xss, yss := ChildLines(prefix, path, v), ChildLeaves(path, v);
      forall i | 0 <= i < |xss| ensures Declares(prefix, xss[i], yss[i]) {
        assert v.entries[i] in v.entries;
        LinesDeclareLeaves(prefix, path + [v.entries[i].0], v.entries[i].1);
      }
      DeclaresConcat(prefix, xss, yss);
    }
  }

  /** Every leaf lies below the path the walk started from. */
  lemma {:induction false} LeavesBelowPath(path: seq<string>, v: Value)
    ensures forall i :: 0 <= i < |Leaves(path, v)| ==> path <= Leaves(path, v)[i].path
    ensures !IsLeaf(v) ==> forall i :: 0 <= i < |Leaves(path, v)| ==> |path| < |Leaves(path, v)[i].path|
    decreases v
  {
    if v.Obj? && !IsLeaf(v) {
      var yss: seq<seq<LeafEntry>> := ChildLeaves(path, v);
      forall i | 0 <= i < |yss|
        ensures forall j :: 0 <= j < |yss[i]| ==> path <= yss[i][j].path && |path| < |yss[i][j].path|
      {
        var key := v.entries[i].0;
        assert v.entries[i] in v.entries;
        LeavesBelowPath(path + [key], v.entries[i].1);
        assert yss[i] == Leaves(path + [key], v.entries[i].1);
        forall j | 0 <= j < |yss[i]| ensures path <= yss[i][j].path && |path| < |yss[i][j].path| {
          var lp := yss[i][j].path;
          assert path + [key] <= lp;
          assert lp[..|path|] == (path + [key])[..|path|] == path;
        }
      }
      ConcatBelow(path, yss);
    }
  }

  lemma {:induction false} ConcatBelow(path: seq<string>, yss: seq<seq<LeafEntry>>)
    requires forall i, j :: 0 <= i < |yss| && 0 <= j < |yss[i]| ==> path <= yss[i][j].path && |path| < |yss[i][j].path|
    ensures forall k :: 0 <= k < |Concat(yss)| ==> path <= Concat(yss)[k].path && |path| < |Concat(yss)[k].path|
  {
    if yss != [] {
      ConcatBelow(path, yss[1..]);
      forall k | 0 <= k < |Concat(yss)| ensures path <= Concat(yss)[k].path && |path| < |Concat(yss)[k].path| {
        if k >= |yss[0]| {
          assert Concat(yss)[k] == Concat(yss[1..])[k - |yss[0]|];
        } else {
          assert Concat(yss)[k] == yss[0][k];
        }
      }
    }
  }

  /** The generated text's lines: `:root {`, then one declaration per leaf, then `}`. */
  lemma CssLinesShape(prefix: string, tokens: Value)
    ensures |CssLines(prefix, tokens)| == |Leaves([], tokens)| + 2
    ensures CssLines(prefix, tokens)[0] == ":root {"
    ensures CssLines(prefix, tokens)[|CssLines(prefix, tokens)| - 1] == "}"
    ensures forall i :: 0 <= i < |Leaves([], tokens)| ==>
      CssLines(prefix, tokens)[i + 1] == LeafLine(prefix, Leaves([], tokens)[i].path, Leaves([], tokens)[i].text)
  {
    LinesDeclareLeaves(prefix, [], tokens);
  }

  /** No newline in the prefix, in any key on a leaf's path, or in any leaf's text. */
  predicate SingleLineLeaves(prefix: string, tokens: Value) {
    '\n' !in prefix &&
    forall i :: 0 <= i < |Leaves([], tokens)| ==>
      '\n' !in Leaves([], tokens)[i].text &&
      forall k :: 0 <= k < |Leaves([], tokens)[i].path| ==> '\n' !in Leaves([], tokens)[i].path[k]
  }

  lemma {:induction false} JoinAvoids(xs: seq<string>, sep: string, c: char)
    requires c !in sep
    requires forall k :: 0 <= k < |xs| ==> c !in xs[k]
    ensures c !in Join(xs, sep)
  {
    if |xs| > 1 {
      JoinAvoids(xs[1..], sep, c);
    }
  }

  /**
   * Read back line by line, the generated text is exactly the block opener,
   * one declaration per leaf and the closer, as long as no key, value or
   * prefix itself contains a newline.
   */
  lemma OutputLines(prefix: string, tokens: Value)
    requires SingleLineLeaves(prefix, tokens)
    ensures Split(Join(CssLines(prefix, tokens), "\n"), '\n') == CssLines(prefix, tokens)
    ensures |Split(Join(CssLines(prefix, tokens), "\n"), '\n')| == |Leaves([], tokens)| + 2
  {
    var lines := CssLines(prefix, tokens);
    var leaves := Leaves([], tokens);
    CssLinesShape(prefix, tokens);
    forall j | 0 <= j < |lines| ensures '\n' !in lines[j] {
      if 0 < j < |lines| - 1 {
        var leaf := leaves[j - 1];
        JoinAvoids(leaf.path, "-", '\n');
        assert lines[j] == "  " + ("--" + prefix + "-" + Join(leaf.path, "-")) + ": " + leaf.text + ";";
      }
    }
    SplitJoin(lines, '\n');
  }

  /** An empty token map gives an empty `:root` block. */
  lemma EmptyTokenMap(prefix: string)
    ensures !Throws(Obj([]))
    ensures CssLines(prefix, Obj([])) == [":root {", "}"]
    ensures Join(CssLines(prefix, Obj([])), "\n") == ":root {\n}"
  {
    assert CssLines(prefix, Obj([])) == [":root {", "}"];
  }

  /** Objects are walked in entry order: the lines of the first entries come first. */
  lemma EntryOrder(prefix: string, path: seq<string>, a: seq<(string, Value)>, b: seq<(string, Value)>)
    requires !IsLeaf(Obj(a)) && !IsLeaf(Obj(b))
    ensures !IsLeaf(Obj(a + b))
    ensures Lines(prefix, path, Obj(a + b)) == Lines(prefix, path, Obj(a)) + Lines(prefix, path, Obj(b))
    ensures Throws(Obj(a + b)) <==> Throws(Obj(a)) || Throws(Obj(b))
  {
    LookupAppend(a, b, "value");
    var ab := ChildLines(prefix, path, Obj(a + b));
    var xa, xb := ChildLines(prefix, path, Obj(a)), ChildLines(prefix, path, Obj(b));
    assert ab == xa + xb;
    ConcatAppend(xa, xb);
    if Throws(Obj(a + b)) {
      var i :| 0 <= i < |a + b| && Throws((a + b)[i].1);
      if i >= |a| {
        assert (a + b)[i] == b[i - |a|];
      }
    }
    if Throws(Obj(b)) {
      var i :| 0 <= i < |b| && Throws(b[i].1);
      assert (a + b)[|a| + i] == b[i];
    }
    if Throws(Obj(a)) {
      var i :| 0 <= i < |a| && Throws(a[i].1);
      assert (a + b)[i] == a[i];
    }
  }

  /**
   * The walk stops at a leaf: further fields of a leaf (its `type`, its
   * `description`) never produce a line, and a `null` among them does not throw.
   */
  lemma LeafStops(prefix: string, path: seq<string>, leaf: seq<(string, Value)>, extra: seq<(string, Value)>)
    requires IsLeaf(Obj(leaf))
    ensures IsLeaf(Obj(leaf + extra)) && !Throws(Obj(leaf + extra))
    ensures Lines(prefix, path, Obj(leaf + extra)) == Lines(prefix, path, Obj(leaf))
    ensures |Lines(prefix, path, Obj(leaf + extra))| == 1
  {
    LookupAppend(leaf, extra, "value");
  }

  /** A value that is not an object produces no line; `null` makes the walk throw. */
  lemma NonObjectsSilent(prefix: string, path: seq<string>, v: Value)
    requires !v.Obj?
    ensures Lines(prefix, path, v) == [] && Leaves(path, v) == []
    ensures Throws(v) <==> v == Null
  {
  }

  /** The test suite's token map: one colour leaf with a `type` field. */
  lemma PrimaryExample()
    ensures !Throws(Obj([("primary", Obj([("value", Prim("#FF1D6C")), ("type", Prim("color"))]))]))
    ensures CssLines(DefaultPrefix, Obj([("primary", Obj([("value", Prim("#FF1D6C")), ("type", Prim("color"))]))]))
      == [":root {", "  --br-primary: #FF1D6C;", "}"]
  {
    var leaf := Obj([("value", Prim("#FF1D6C")), ("type", Prim("color"))]);
    var tokens := Obj([("primary", leaf)]);
    assert IsLeaf(leaf);
    assert "primary" != "value";
    assert tokens.entries[1..] == [];
    assert Lookup(tokens.entries, "value") == Lookup(tokens.entries[1..], "value") == None;
    assert !IsLeaf(tokens);
    assert Lines(DefaultPrefix, ["primary"], leaf) == [LeafLine(DefaultPrefix, ["primary"], "#FF1D6C")];
    assert ChildLines(DefaultPrefix, [], tokens) == [Lines(DefaultPrefix, [] + ["primary"], leaf)];
    assert Join(["primary"], "-") == "primary";
    assert LeafLine(DefaultPrefix, ["primary"], "#FF1D6C") == "  --br-primary: #FF1D6C;";
    assert !Throws(leaf);
  }

  /** A group with one member adds that member's key to the path and nothing else. */
  lemma SingleMemberGroup(prefix: string, path: seq<string>, key: string, member: Value)
    requires key != "value"
    ensures !IsLeaf(Obj([(key, member)]))
    ensures Lines(prefix, path, Obj([(key, member)])) == Lines(prefix, path + [key], member)
  {
    var group := Obj([(key, member)]);
    assert group.entries[1..] == [];
    assert Lookup(group.entries, "value") == Lookup(group.entries[1..], "value") == None;
    var inner := Lines(prefix, path + [key], member);
    assert ChildLines(prefix, path, group) == [inner];
    assert Concat([inner]) == inner + Concat<string>([]);
  }

  /** Nested groups join their keys with `-`. */
  lemma NestedExample()
    ensures Lines(DefaultPrefix, [], Obj([("colors", Obj([("pink", Obj([("value", Prim("#FF1D6C"))]))]))]))
      == [LeafLine(DefaultPrefix, ["colors", "pink"], "#FF1D6C")]
    ensures LeafLine(DefaultPrefix, ["colors", "pink"], "#FF1D6C") == "  --br-colors-pink: #FF1D6C;"
  {
    var leaf := Obj([("value", Prim("#FF1D6C"))]);
    var group := Obj([("pink", leaf)]);
    assert IsLeaf(leaf);
    SingleMemberGroup(DefaultPrefix, [], "colors", group);
    assert [] + ["colors"] == ["colors"];
    SingleMemberGroup(DefaultPrefix, ["colors"], "pink", leaf);
    assert ["colors"] + ["pink"] == ["colors", "pink"];
    var pink := ["pink"];
    assert ["colors", "pink"][1..] == pink;
    assert Join(pink, "-") == "pink";
    assert Join(["colors", "pink"], "-") == "colors-pink";
  }

  /**
   * `null` as a group member makes the walk throw; `null` as a leaf's value is
   * rendered as "null"; a leaf at the top has an empty path.
   */
  lemma NullExamples()
    ensures Throws(Obj([("a", Null)]))
    ensures !Throws(Obj([("value", Null)]))
    ensures Lines(DefaultPrefix, [], Obj([("value", Null)])) == ["  --br-: null;"]
  {
    var group := Obj([("a", Null)]);
    assert group.entries[1..] == [];
    assert Lookup(group.entries, "value") == Lookup(group.entries[1..], "value") == None;
    assert Throws(group.entries[0].1);
    assert LeafLine(DefaultPrefix, [], "null") == "  --br-: null;";
  }

  /** Every object in the value has distinct keys, as every JavaScript object does. */
  predicate WellKeyed(v: Value)
    decreases v
  {
    match v
    case Obj(entries) => DistinctKeys(entries) && forall i :: 0 <= i < |entries| ==> WellKeyed(entries[i].1)
    case _ => true
  }

  /** The value found by following the keys `ks` from `v` through groups, as the walk descends. */
  function At(v: Value, ks: seq<string>): Option<Value>
    decreases |ks|
  {
    if ks == [] then Some(v)
    else if v.Obj? && !IsLeaf(v) then
      match Lookup(v.entries, ks[0])
      case None => None
      case Some(c) => At(c, ks[1..])
    else None
  }

  /** Following `ks` from `v` ends at a leaf whose `value` renders as `text`. */
  predicate ReachesLeaf(v: Value, ks: seq<string>, text: string) {
    At(v, ks).Some? && IsLeaf(At(v, ks).value) && LeafText(At(v, ks).value) == text
  }

  /**
   * Every leaf the walk lists is really there: following its keys from the
   * start reaches an object with a `value` field whose text is the one listed.
   */
  lemma {:induction false} LeavesSound(path: seq<string>, v: Value)
    requires WellKeyed(v)
    ensures forall i :: 0 <= i < |Leaves(path, v)| ==>
      path <= Leaves(path, v)[i].path && ReachesLeaf(v, Leaves(path, v)[i].path[|path|..], Leaves(path, v)[i].text)
    decreases v
  {
    if IsLeaf(v) {
      assert Leaves(path, v)[0].path[|path|..] == [];
    } else if v.Obj? {
      var yss: seq<seq<LeafEntry>> := ChildLeaves(path, v);
      forall i, j | 0 <= i < |yss| && 0 <= j < |yss[i]|
        ensures path <= yss[i][j].path && ReachesLeaf(v, yss[i][j].path[|path|..], yss[i][j].text)
      {
        var (key, child) := v.entries[i];
        assert v.entries[i] in v.entries;
        LeavesSound(path + [key], child);
        assert yss[i] == Leaves(path + [key], child);
        var e := yss[i][j];
        assert path + [key] <= e.path;
        assert e.path[..|path|] == (path + [key])[..|path|] == path;
        var ks := e.path[|path|..];
        assert ks[0] == key && ks[1..] == e.path[|path| + 1..];
        LookupEntry(v.entries, i);
        assert At(v, ks) == At(child, ks[1..]);
      }
      ConcatAll(yss, (e: LeafEntry) => path <= e.path && ReachesLeaf(v, e.path[|path|..], e.text));
    }
  }

  /** Every leaf reachable by a key path is listed, with that path. */
  lemma {:induction false} LeavesComplete(path: seq<string>, v: Value, ks: seq<string>)
    requires At(v, ks).Some? && IsLeaf(At(v, ks).value)
    ensures LeafEntry(path + ks, LeafText(At(v, ks).value)) in Leaves(path, v)
    decreases |ks|
  {
    if ks == [] {
      assert path + ks == path;
    } else {
      var c := Lookup(v.entries, ks[0]).value;
      var i :| 0 <= i < |v.entries| && v.entries[i] == (ks[0], c);
      LeavesComplete(path + [ks[0]], c, ks[1..]);
      assert path + [ks[0]] + ks[1..] == path + ks;
      var yss := ChildLeaves(path, v);
      assert yss[i] == Leaves(path + [ks[0]], c);
      ConcatHas(yss, i, LeafEntry(path + ks, LeafText(At(v, ks).value)));
    }
  }

  lemma {:induction false} ConcatHas<T>(xss: seq<seq<T>>, i: nat, x: T)
    requires i < |xss| && x in xss[i]
    ensures x in Concat(xss)
  {
    if i > 0 {
      ConcatHas(xss[1..], i - 1, x);
    }
  }

  /** The walk throws exactly when some key path through groups leads to a `null`. */
  lemma ThrowsIffNullReached(v: Value)
    requires WellKeyed(v)
    ensures Throws(v) <==> exists ks :: At(v, ks) == Some(Null)
  {
    if Throws(v) {
      ThrowsReachesNull(v);
    }
    if exists ks :: At(v, ks) == Some(Null) {
      var ks :| At(v, ks) == Some(Null);
      NullReachedThrows(v, ks);
    }
  }

  lemma {:induction false} ThrowsReachesNull(v: Value)
    requires WellKeyed(v) && Throws(v)
    ensures exists ks :: At(v, ks) == Some(Null)
    decreases v
  {
    if v == Null {
      assert At(v, []) == Some(Null);
    } else {
      var i :| 0 <= i < |v.entries| && Throws(v.entries[i].1);
      var (key, child) := v.entries[i];
      assert v.entries[i] in v.entries;
      ThrowsReachesNull(child);
      var ks :| At(child, ks) == Some(Null);
      LookupEntry(v.entries, i);
      assert ([key] + ks)[1..] == ks;
      assert At(v, [key] + ks) == Some(Null);
    }
  }

  lemma {:induction false} NullReachedThrows(v: Value, ks: seq<string>)
    requires At(v, ks) == Some(Null)
    ensures Throws(v)
    decreases |ks|
  {
    if ks != [] {
      var c := Lookup(v.entries, ks[0]).value;
      var i :| 0 <= i < |v.entries| && v.entries[i] == (ks[0], c);
      NullReachedThrows(c, ks[1..]);
      assert Throws(v.entries[i].1);
    }
  }
}

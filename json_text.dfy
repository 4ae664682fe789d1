/** The hand-written JSON serialisers `dict_to_json`, `parse_json_item` and
    `parse_json_list` of build/lib/hm_wrapper/_utils.py.

    They build text by string concatenation and `rstrip(', ')`, with no
    escaping. Python's `bool` is a subclass of `int`, so every `isinstance(x, int)`
    test also accepts `True` and `False`, which `str()` then writes as `True`
    and `False`: the branches that would write `true` and `false` are never
    reached. Values are limited to what the serialisers render without Python
    `repr`: integers, booleans, strings, lists and (for `parse_json_item`) dicts. */
module JsonText {
  import opened Wrappers
  import opened Text

  datatype Scalar = Int(i: int) | Bool(b: bool) | Str(s: string)

  /** The value of one `dict_to_json` argument: a scalar or a list of scalars. */
  datatype Field = One(x: Scalar) | Many(xs: seq<Scalar>)

  /** One `key: value` pair of a Python dict; a dict is a sequence of them, in insertion order. */
  datatype Entry = Entry(key: string, field: Field)

  /** What `parse_json_item` and `parse_json_list` accept. */
  datatype Value = Atom(x: Scalar) | List(vs: seq<Value>) | Dict(es: seq<Entry>)

  /** `str(x)`; for a bool this is `True` or `False`. */
  function ScalarStr(x: Scalar): (r: string)
    ensures x.Bool? ==> r == (if x.b then "True" else "False")
    ensures x.Str? ==> r == x.s
  {
    match x
    case Int(i) => IntToString(i)
    case Bool(b) => if b then "True" else "False"
    case Str(s) => s
  }

  // ---------------------------------------------------------------------------
  // dict_to_json

  /** A list element as `dict_to_json` writes it: an int or a bool through `str()`, anything else quoted.
      It never ends in a comma or a space, so the later `rstrip(', ')` stops right after it. */
  function ElementText(x: Scalar): (r: string)
    ensures |r| >= 1 && r[|r| - 1] != ',' && r[|r| - 1] != ' '
    ensures x.Str? ==> r == "\"" + x.s + "\""
  {
    match x
    case Int(i) => IntToString(i)
    case Bool(_) => ScalarStr(x)
    case Str(s) => "\"" + s + "\""
  }

  /** The elements each followed by ", ", as the inner loop leaves them. */
  function ElementsWithCommas(xs: seq<Scalar>): string {
    if |xs| == 0 then "" else ElementsWithCommas(xs[..|xs| - 1]) + ElementText(xs[|xs| - 1]) + ", "
  }

  /** The elements separated by ", ". */
  function ElementsJoined(xs: seq<Scalar>): (r: string)
    ensures |r| == 0 <==> |xs| == 0
    ensures |r| > 0 ==> r[|r| - 1] != ',' && r[|r| - 1] != ' '
  {
    if |xs| == 0 then ""
    else if |xs| == 1 then ElementText(xs[0])
    else ElementsJoined(xs[..|xs| - 1]) + ", " + ElementText(xs[|xs| - 1])
  }

  /** The characters `rstrip(', ')` removes. */
  const CommaSpace: set<char> := {',', ' '}

  lemma {:induction false} ElementsWithCommasJoined(xs: seq<Scalar>)
    requires |xs| > 0
    ensures ElementsWithCommas(xs) == ElementsJoined(xs) + ", "
  {
    if |xs| > 1 {
      ElementsWithCommasJoined(xs[..|xs| - 1]);
    } else {
      assert xs[..0] == [];
    }
  }

  /** `rstrip(', ')` after a text that does not itself end in a comma or a space removes exactly the
      ", " appended to it. */
  lemma StripAppended(q: string, t: string)
    requires |q| == 0 || (q[|q| - 1] != ',' && q[|q| - 1] != ' ')
    requires t == "" || t == ", "
    ensures RStrip(q + t, CommaSpace) == q
  {
    RStripSuffix(q, t, CommaSpace);
  }

  /** Stripping after the last element removes exactly its ", ": a list `[` followed by the elements
      with commas strips to `[` followed by the elements joined. */
  lemma ListStrip(p: string, xs: seq<Scalar>)
    requires |p| > 0 && p[|p| - 1] == '['
    ensures RStrip(p + ElementsWithCommas(xs), CommaSpace) == p + ElementsJoined(xs)
  {
    if |xs| == 0 {
      StripAppended(p, "");
      assert p + "" == p;
    } else {
      ElementsWithCommasJoined(xs);
      var j := ElementsJoined(xs);
      var q := p + j;
      LastOfAppend(p, j);
      StripAppended(q, ", ");
      ConcatAssoc(p, j, ", ");
    }
  }

  lemma LastOfAppend(p: string, j: string)
    requires |j| > 0
    ensures (p + j)[|p + j| - 1] == j[|j| - 1]
  {
  }

  /** An entry as `dict_to_json` writes it: `"key":"value"` for a scalar, `"key": [..]` for a list. */
  function EntryText(e: Entry): (r: string)
    ensures |r| >= 1 && r[|r| - 1] != ',' && r[|r| - 1] != ' '
  {
    match e.field
    case One(x) => "\"" + e.key + "\":\"" + ScalarStr(x) + "\""
    case Many(xs) => "\"" + e.key + "\": [" + ElementsJoined(xs) + "]"
  }

  /** Only a scalar entry is followed by ", "; after a list entry the next entry follows directly. */
  function EntrySep(e: Entry): string {
    if e.field.One? then ", " else ""
  }

  /** The entries each followed by their separator, as the outer loop leaves them. */
  function EntriesWithSeps(es: seq<Entry>): string {
    if |es| == 0 then "" else EntriesWithSeps(es[..|es| - 1]) + EntryText(es[|es| - 1]) + EntrySep(es[|es| - 1])
  }

  /** What `dict_to_json` returns: None for a missing or empty dict; otherwise the entries in order
      between braces, every entry but the last followed by its separator. */
  function DictJson(args: Option<seq<Entry>>): (r: Option<string>)
    ensures r.None? <==> args.None? || |args.value| == 0
    ensures r.Some? ==> |r.value| >= 3 && r.value[0] == '{' && r.value[|r.value| - 1] == '}'
  {
    if args.None? || |args.value| == 0 then None
    else
      var es := args.value;
      Some("{" + EntriesWithSeps(es[..|es| - 1]) + EntryText(es[|es| - 1]) + "}")
  }

  // Each step of the loops below appends one f-string; these lemmas say where that leaves the text.

  lemma ElementStep(head: string, xs: seq<Scalar>, j: nat)
    requires j < |xs|
    ensures head + ElementsWithCommas(xs[..j]) + (ElementText(xs[j]) + ", ") == head + ElementsWithCommas(xs[..j + 1])
  {
    assert xs[..j + 1][..j] == xs[..j];
    ConcatAssoc(head, ElementsWithCommas(xs[..j]), ElementText(xs[j]) + ", ");
    ConcatAssoc(ElementsWithCommas(xs[..j]), ElementText(xs[j]), ", ");
  }

  lemma ScalarEntryStep(es: seq<Entry>, k: nat)
    requires k < |es| && es[k].field.One?
    ensures "{" + EntriesWithSeps(es[..k]) + ("\"" + es[k].key + "\":\"" + ScalarStr(es[k].field.x) + "\", ")
         == "{" + EntriesWithSeps(es[..k + 1])
  {
    var e := es[k];
    var w := EntriesWithSeps(es[..k]);
    var p := "\"" + e.key + "\":\"" + ScalarStr(e.field.x);
    assert es[..k + 1][..k] == es[..k];
    assert "\"" + ", " == "\", ";
    ConcatAssoc(p, "\"", ", ");
    assert p + "\", " == EntryText(e) + EntrySep(e);
    ConcatAssoc(w, EntryText(e), EntrySep(e));
    ConcatAssoc("{", w, EntryText(e) + EntrySep(e));
  }

  lemma ListEntryStep(es: seq<Entry>, k: nat)
    requires k < |es| && es[k].field.Many?
    ensures "{" + EntriesWithSeps(es[..k]) + ("\"" + es[k].key + "\": [") + ElementsJoined(es[k].field.xs) + "]"
         == "{" + EntriesWithSeps(es[..k + 1])
  {
    var e := es[k];
    var w := EntriesWithSeps(es[..k]);
    var b := "{" + w;
    var open := "\"" + e.key + "\": [";
    var j := ElementsJoined(e.field.xs);
    assert es[..k + 1][..k] == es[..k];
    assert EntrySep(e) == "";
    assert w + EntryText(e) + "" == w + EntryText(e);
    ConcatAssoc(b, open, j);
    ConcatAssoc(b, open + j, "]");
    ConcatAssoc("{", w, EntryText(e));
  }

  lemma LastEntryStep(es: seq<Entry>)
    requires |es| > 0
    ensures "{" + EntriesWithSeps(es)
         == "{" + EntriesWithSeps(es[..|es| - 1]) + EntryText(es[|es| - 1]) + EntrySep(es[|es| - 1])
  {
    var n := |es| - 1;
    var w := EntriesWithSeps(es[..n]);
    ConcatAssoc("{", w + EntryText(es[n]), EntrySep(es[n]));
    ConcatAssoc("{", w, EntryText(es[n]));
  }

  /** The inner loop of `dict_to_json` over the elements of a list value, each written with ", " after it. */
  method AppendElements(head: string, xs: seq<Scalar>) returns (body: string)
    ensures body == head + ElementsWithCommas(xs)
  {
    body := head;
    var j := 0;
    while j < |xs|
      invariant 0 <= j <= |xs|
      invariant body == head + ElementsWithCommas(xs[..j])
    {
      var x := xs[j];
      // isinstance(x, int) holds for a bool too
      if x.Int? || x.Bool? {
        body := body + (ScalarStr(x) + ", ");
      } else {
        body := body + ("\"" + x.s + "\"" + ", ");
      }
      ElementStep(head, xs, j);
      j := j + 1;
    }
    assert xs[..j] == xs;
  }

  /** The loop of `dict_to_json` over the items, stripping after each list and once at the end. */
  method DictToJson(args: Option<seq<Entry>>) returns (r: Option<string>)
    ensures r == DictJson(args)
  {
    if args.None? || |args.value| == 0 {
      return None;
    }
    var es := args.value;
    var body := "{";
    var k := 0;
    while k < |es|
      invariant 0 <= k <= |es|
      invariant body == "{" + EntriesWithSeps(es[..k])
    {
      var e := es[k];
      match e.field {
        case Many(xs) =>
          var head := body + ("\"" + e.key + "\": [");
          body := AppendElements(head, xs);
          ListStrip(head, xs);
          body := RStrip(body, CommaSpace);
          body := body + "]";
          ListEntryStep(es, k);
        case One(x) =>
          body := body + ("\"" + e.key + "\":\"" + ScalarStr(x) + "\", ");
          ScalarEntryStep(es, k);
      }
      k := k + 1;
    }
    assert es[..k] == es;
    var n := |es| - 1;
    LastEntryStep(es);
    var q := "{" + EntriesWithSeps(es[..n]) + EntryText(es[n]);
    LastOfAppend("{" + EntriesWithSeps(es[..n]), EntryText(es[n]));
    assert q[|q| - 1] != ',' && q[|q| - 1] != ' ';
    StripAppended(q, EntrySep(es[n]));
    body := RStrip(body, CommaSpace);
    r := Some(body + "}");
  }

  /** For a dict of scalars only, the output is a brace-enclosed, ", "-separated list of `"key":"value"`
      pairs: the shape of a JSON object with string values (the text itself is not escaped). */
  function PairsText(es: seq<Entry>): string {
    if |es| == 0 then ""
    else if |es| == 1 then EntryText(es[0])
    else PairsText(es[..|es| - 1]) + ", " + EntryText(es[|es| - 1])
  }

  lemma {:induction false} ScalarEntriesJoined(es: seq<Entry>)
    requires |es| > 0
    requires forall k :: 0 <= k < |es| ==> es[k].field.One?
    ensures EntriesWithSeps(es[..|es| - 1]) + EntryText(es[|es| - 1]) == PairsText(es)
  {
    if |es| > 1 {
      var p := es[..|es| - 1];
      ScalarEntriesJoined(p);
      assert p[..|p| - 1] == es[..|es| - 2];
      assert EntriesWithSeps(p) == EntriesWithSeps(es[..|es| - 2]) + EntryText(p[|p| - 1]) + ", ";
    } else {
      assert es[..0] == [];
    }
  }

  lemma ScalarDictIsObject(es: seq<Entry>)
    requires |es| > 0
    requires forall k :: 0 <= k < |es| ==> es[k].field.One?
    ensures DictJson(Some(es)) == Some("{" + PairsText(es) + "}")
  {
    ScalarEntriesJoined(es);
    ConcatAssoc("{", EntriesWithSeps(es[..|es| - 1]), EntryText(es[|es| - 1]));
  }

  /** A list entry followed by another entry gets no separator: {"a": [1], "b": "x"} is written
      as {"a": [1]"b":"x"}, which is not JSON. */
  lemma ListEntryRunsOn()
    ensures DictJson(Some([Entry("a", Many([Int(1)])), Entry("b", One(Str("x")))]))
         == Some("{" + "\"a\": [1]" + "\"b\":\"x\"" + "}")
  {
    var es := [Entry("a", Many([Int(1)])), Entry("b", One(Str("x")))];
    assert DigitChar(1) == '1';
    assert ElementsJoined([Int(1)]) == "1";
    assert EntryText(es[0]) == "\"a\": [1]";
    assert EntrySep(es[0]) == "";
    assert es[..1][..0] == [];
    assert EntriesWithSeps(es[..1]) == "\"a\": [1]";
    assert EntryText(es[1]) == "\"b\":\"x\"";
    assert DictJson(Some(es)) == Some("{" + EntriesWithSeps(es[..1]) + EntryText(es[1]) + "}");
  }

  /** Booleans in a list take the int branch and are written `True` and `False`. */
  lemma ListBoolsArePython()
    ensures DictJson(Some([Entry("f", Many([Bool(true), Bool(false)]))])) == Some("{" + "\"f\": [True, False]" + "}")
  {
    var xs := [Bool(true), Bool(false)];
    assert xs[..1] == [Bool(true)];
    assert ElementsJoined(xs) == "True, False";
    var es := [Entry("f", Many(xs))];
    assert es[..0] == [];
    assert EntryText(es[0]) == "\"f\": [True, False]";
    assert DictJson(Some(es)) == Some("{" + EntriesWithSeps(es[..0]) + EntryText(es[0]) + "}");
    assert "{" + "" == "{";
  }

  // ---------------------------------------------------------------------------
  // parse_json_item and parse_json_list

  /** `parse_json_item`: an int or a bool through `str()`, a list through `parse_json_list`, a dict through
      `dict_to_json`; anything else falls off the end and gives None. A list may raise. */
  function ItemText(v: Value): (r: Result<Option<string>, Raised>)
    ensures r.Failure? ==> v.List?
    ensures v.Atom? ==> r.Success? && (r.value.None? <==> v.x.Str?)
    decreases v, 1
  {
    match v
    case Atom(x) => if x.Str? then Success(None) else Success(Some(ScalarStr(x)))
    case List(vs) =>
      (match ListText(vs)
       case Success(t) => Success(Some(t))
       case Failure(e) => Failure(e))
    case Dict(es) => Success(DictJson(Some(es)))
  }

  /** The items of a list each followed by ", ". Adding None to a string raises TypeError, so the first item
      with no text stops the loop, as does the first item whose own list raises. */
  function ItemsText(vs: seq<Value>): (r: Result<string, Raised>)
    ensures r.Success? ==> (r.value == "" <==> |vs| == 0)
    decreases vs, 0
  {
    if |vs| == 0 then Success("")
    else Extend(ItemsText(vs[..|vs| - 1]), ItemText(vs[|vs| - 1]))
  }

  /** One pass of the loop of `parse_json_list`: `json_item += parse_json_item(li) + ', '`. */
  function Extend(acc: Result<string, Raised>, item: Result<Option<string>, Raised>): Result<string, Raised> {
    match acc
    case Failure(e) => Failure(e)
    case Success(prefix) =>
      match item
      case Failure(e) => Failure(e)
      case Success(None) => Failure(TypeError)
      case Success(Some(t)) => Success(prefix + t + ", ")
  }

  /** The items up to `k + 1` are the items up to `k` extended by item `k`. */
  lemma ItemsTextStep(vs: seq<Value>, k: nat)
    requires k < |vs|
    ensures ItemsText(vs[..k + 1]) == Extend(ItemsText(vs[..k]), ItemText(vs[k]))
  {
    assert vs[..k + 1][..k] == vs[..k];
  }

  /** `parse_json_list`: the items between brackets, a ", " after every one of them. */
  function ListText(vs: seq<Value>): (r: Result<string, Raised>)
    ensures r.Success? ==> |r.value| >= 2 && r.value[0] == '[' && r.value[|r.value| - 1] == ']'
    decreases vs, 2
  {
    match ItemsText(vs)
    case Success(t) => Success("[" + t + "]")
    case Failure(e) => Failure(e)
  }

  /** Once a prefix of the items raises, the whole list raises the same error. */
  lemma {:induction false} ItemsFailurePersists(vs: seq<Value>, n: nat)
    requires n <= |vs| && ItemsText(vs[..n]).Failure?
    ensures ItemsText(vs) == ItemsText(vs[..n])
  {
    if n == |vs| {
      assert vs[..n] == vs;
    } else {
      var p := vs[..|vs| - 1];
      assert p[..n] == vs[..n];
      ItemsFailurePersists(p, n);
    }
  }

  /** The loop of `parse_json_list`. */
  method ParseJsonList(vs: seq<Value>) returns (r: Result<string, Raised>)
    ensures r == ListText(vs)
  {
    var acc := "[";
    ghost var items := "";
    var k := 0;
    assert vs[..0] == [];
    while k < |vs|
      invariant 0 <= k <= |vs|
      invariant ItemsText(vs[..k]) == Success(items) && acc == "[" + items
    {
      ItemsTextStep(vs, k);
      var item := ItemText(vs[k]);
      if item.Failure? {
        ItemsFailurePersists(vs, k + 1);
        return Failure(item.error);
      } else if item.value.None? {
        ItemsFailurePersists(vs, k + 1);
        return Failure(TypeError);
      }
      var t := item.value.value;
      ConcatAssoc("[" + items, t, ", ");
      ConcatAssoc("[", items, t);
      ConcatAssoc("[", items + t, ", ");
      acc := acc + (t + ", ");
      items := items + t + ", ";
      k := k + 1;
    }
    assert vs[..k] == vs;
    r := Success(acc + "]");
  }

  /** No item is ever written as the JSON literal `true` or `false`: a bool comes out as `True` or `False`. */
  lemma ItemTextNeverJsonBool(v: Value)
    requires ItemText(v).Success? && ItemText(v).value.Some?
    ensures ItemText(v).value.value != "true" && ItemText(v).value.value != "false"
  {
    var t := ItemText(v).value.value;
    match v
    case Atom(x) =>
      if x.Int? {
        if x.i >= 0 {
          assert IsDigit(NatToString(x.i)[0]);
        }
        assert t[0] == '-' || IsDigit(t[0]);
      }
    case List(vs) =>
      assert t[0] == '[';
    case Dict(es) =>
      assert t[0] == '{';
  }

  /** A list is written exactly when every item is: one string, empty dict or failing sublist makes it raise. */
  lemma {:induction false} ItemsTextSucceedsExactly(vs: seq<Value>)
    ensures ItemsText(vs).Success? <==> forall k :: 0 <= k < |vs| ==> ItemText(vs[k]).Success? && ItemText(vs[k]).value.Some?
  {
    if |vs| > 0 {
      var p := vs[..|vs| - 1];
      ItemsTextSucceedsExactly(p);
      assert forall k :: 0 <= k < |p| ==> p[k] == vs[k];
    }
  }

  lemma ListTextSucceedsExactly(vs: seq<Value>)
    ensures ListText(vs).Success? <==> forall k :: 0 <= k < |vs| ==> ItemText(vs[k]).Success? && ItemText(vs[k]).value.Some?
  {
    ItemsTextSucceedsExactly(vs);
  }

  /** The only exception a list raises is TypeError. */
  lemma {:induction false} ItemsTextRaisesTypeError(vs: seq<Value>)
    ensures ItemsText(vs).Failure? ==> ItemsText(vs).error == TypeError
    decreases vs, 0
  {
    if |vs| > 0 {
      ItemsTextRaisesTypeError(vs[..|vs| - 1]);
      ItemTextRaisesTypeError(vs[|vs| - 1]);
    }
  }

  lemma {:induction false} ItemTextRaisesTypeError(v: Value)
    ensures ItemText(v).Failure? ==> ItemText(v).error == TypeError
    decreases v, 1
  {
    if v.List? {
      ItemsTextRaisesTypeError(v.vs);
    }
  }

  /** Every written item is followed by ", ", so the items of a non-empty list end in one. */
  lemma ItemsTextEndsInComma(vs: seq<Value>)
    requires |vs| > 0 && ItemsText(vs).Success?
    ensures EndsWith(ItemsText(vs).value, ", ")
  {
    var last := vs[|vs| - 1];
    var p := ItemsText(vs[..|vs| - 1]).value;
    var t := ItemText(last).value.value;
    var items := p + t + ", ";
    assert ItemsText(vs).value == items;
    assert items[|items| - 2..] == ", ";
  }

  /** A written list is `[`, every item followed by ", ", then `]`: so a non-empty list always ends in ", ]". */
  lemma ListTextShape(vs: seq<Value>)
    requires ListText(vs).Success?
    ensures |vs| == 0 ==> ListText(vs).value == "[]"
    ensures |vs| > 0 ==> EndsWith(ListText(vs).value, ", ]")
  {
    if |vs| > 0 {
      var items := ItemsText(vs).value;
      ItemsTextEndsInComma(vs);
      EndsWithAround("[", items, ", ", "]");
      assert ", " + "]" == ", ]";
    }
  }

  /** Two numbers; the empty list; a bool; a string. */
  lemma ListExamples()
    ensures ListText([Atom(Int(1)), Atom(Int(2))]) == Success("[" + "1, " + "2, " + "]")
    ensures ListText([]) == Success("[]")
    ensures ListText([Atom(Bool(true))]) == Success("[" + "True, " + "]")
    ensures ListText([Atom(Int(1)), Atom(Str("a"))]) == Failure(TypeError)
  {
    var two := [Atom(Int(1)), Atom(Int(2))];
    assert DigitChar(1) == '1' && DigitChar(2) == '2';
    assert two[..1][..0] == [];
    assert ItemsText(two[..1]) == Success("" + "1" + ", ");
    assert "" + "1" + ", " == "1, ";
    assert ItemsText(two) == Success("1, " + "2" + ", ");
    assert "1, " + "2" + ", " == "1, " + "2, ";
    ConcatAssoc("[", "1, ", "2, ");
    var b := [Atom(Bool(true))];
    assert b[..0] == [];
    assert ItemsText(b) == Success("" + "True" + ", ");
    assert "" + "True" + ", " == "True, ";
    assert ItemsText([]) == Success("");
    assert "[" + "" + "]" == "[]";
    var s := [Atom(Int(1)), Atom(Str("a"))];
    assert s[..1] == two[..1];
  }
}

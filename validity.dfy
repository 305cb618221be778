/** The `filter` nested in `analysis`: each token either parses as a number,
    and its value joins the valid list, or it does not, and the token itself,
    unchanged, joins the invalid list. The bare `except` catches every failure
    of `float(item)`, so the partition is total. */
module Validity {
  import opened Wrappers

  /** `float(item)`: the value of a token that parses, `None` for a token on
      which `float` raises. The grammar of float literals is not modelled. */
  type Parser = string -> Option<real>

  /** The valid list after the tokens of `raw`, in input order. */
  function ValidOf(parse: Parser, raw: seq<string>): seq<real> {
    if raw == [] then []
    else
      var last := raw[|raw| - 1];
      ValidOf(parse, raw[..|raw| - 1]) + if parse(last).Some? then [parse(last).value] else []
  }

  /** The invalid list after the tokens of `raw`, in input order. */
  function InvalidOf(parse: Parser, raw: seq<string>): seq<string> {
    if raw == [] then []
    else
      var last := raw[|raw| - 1];
      InvalidOf(parse, raw[..|raw| - 1]) + if parse(last).None? then [last] else []
  }

  /** The loop of `filter`: one pass over `raw`, appending to one list or
      the other. */
  method Filter(parse: Parser, raw: seq<string>) returns (valid: seq<real>, invalid: seq<string>)
    ensures valid == ValidOf(parse, raw)
    ensures invalid == InvalidOf(parse, raw)
  {
    valid, invalid := [], [];
    var i := 0;
    while i < |raw|
      invariant 0 <= i <= |raw|
      invariant valid == ValidOf(parse, raw[..i])
      invariant invalid == InvalidOf(parse, raw[..i])
    {
      var item := raw[i];
      assert raw[..i + 1][..i] == raw[..i];
      match parse(item) {
        case Some(v) => valid := valid + [v];
        case None => invalid := invalid + [item];
      }
      i := i + 1;
    }
    assert raw[..i] == raw;
  }

  /** Filtering a concatenation filters each part and concatenates: the
      two lists keep the input order. */
  lemma {:induction false} FilterAppend(parse: Parser, a: seq<string>, b: seq<string>)
    ensures ValidOf(parse, a + b) == ValidOf(parse, a) + ValidOf(parse, b)
    ensures InvalidOf(parse, a + b) == InvalidOf(parse, a) + InvalidOf(parse, b)
  {
    if b == [] {
      assert a + b == a;
    } else {
      var b' := b[..|b| - 1];
      FilterAppend(parse, a, b');
      assert (a + b)[..|a + b| - 1] == a + b';
      assert (a + b)[|a + b| - 1] == b[|b| - 1];
    }
  }

  /** A single token lands in exactly one of the two lists: its value in the
      valid list when it parses, the token itself in the invalid list when not. */
  lemma FilterOne(parse: Parser, item: string)
    ensures parse(item).Some? ==> ValidOf(parse, [item]) == [parse(item).value] && InvalidOf(parse, [item]) == []
    ensures parse(item).None? ==> ValidOf(parse, [item]) == [] && InvalidOf(parse, [item]) == [item]
  {
    assert [item][..0] == [];
  }

  /** Every token is counted once: the two lists together are as long as the input. */
  lemma {:induction false} FilterCount(parse: Parser, raw: seq<string>)
    ensures |ValidOf(parse, raw)| + |InvalidOf(parse, raw)| == |raw|
  {
    if raw != [] {
      FilterCount(parse, raw[..|raw| - 1]);
    }
  }

  /** The invalid list holds exactly the original tokens that do not parse. */
  lemma {:induction false} InvalidMembers(parse: Parser, raw: seq<string>)
    ensures forall t :: t in InvalidOf(parse, raw) <==> t in raw && parse(t).None?
  {
    if raw != [] {
      var init := raw[..|raw| - 1];
      InvalidMembers(parse, init);
      assert raw == init + [raw[|raw| - 1]];
    }
  }

  /** The valid list holds exactly the values of the tokens that parse. */
  lemma {:induction false} ValidMembers(parse: Parser, raw: seq<string>)
    ensures forall v :: v in ValidOf(parse, raw) <==> exists t :: t in raw && parse(t) == Some(v)
  {
    if raw != [] {
      var init := raw[..|raw| - 1];
      var last := raw[|raw| - 1];
      ValidMembers(parse, init);
      assert raw == init + [last];
      forall v | exists t :: t in raw && parse(t) == Some(v)
        ensures v in ValidOf(parse, raw)
      {
        var t :| t in raw && parse(t) == Some(v);
        if t != last {
          assert t in init;
        }
      }
    }
  }

  /** Numbers each written out in a form `float` reads back exactly (as
      `repr` does for every finite float) are all valid again, in the same
      order, and nothing is invalid. */
  lemma {:induction false} FilterWritten(parse: Parser, show: real -> string, values: seq<real>)
    requires forall i :: 0 <= i < |values| ==> parse(show(values[i])) == Some(values[i])
    ensures var raw := seq(|values|, i requires 0 <= i < |values| => show(values[i]));
      ValidOf(parse, raw) == values && InvalidOf(parse, raw) == []
  {
    var raw := seq(|values|, i requires 0 <= i < |values| => show(values[i]));
    if values != [] {
      var init := values[..|values| - 1];
      FilterWritten(parse, show, init);
      assert raw[..|raw| - 1] == seq(|init|, i requires 0 <= i < |init| => show(init[i]));
      assert values == init + [values[|values| - 1]];
    }
  }
}

/** Whole-list entry: the user types one line holding the whole dataset,
    either `1, 2, 3` or `(1, 2, 3)`, and is asked again while the line
    yields the list `['']`. */
module WholeListInput {
  import opened Wrappers
  import opened Strings

  /** Neither a leading `(` nor a trailing `)`: the line is split as it is. */
  predicate Plain(line: string) {
    !StartsWith(line, '(') && !EndsWith(line, ')')
  }

  /** Both a leading `(` and a trailing `)`. */
  predicate Enclosed(line: string) {
    StartsWith(line, '(') && EndsWith(line, ')')
  }

  /** Exactly one of the two outer parentheses. */
  predicate OneSided(line: string) {
    !Plain(line) && !Enclosed(line)
  }

  /** The list the "Data can't be empty" test refuses. */
  predicate IsEmptyData(data: seq<string>) {
    |data| == 1 && data[0] == ""
  }

  /** One pass of the loop body: what `data` holds after reading `line`
      when it held `prev` before. A plain line is split on `,` and its
      pieces are kept untrimmed; an enclosed line loses every `(` and `)`,
      inner ones included, and each piece is trimmed; a line with only one
      of the two parentheses leaves `data` as it was. */
  function Tokenise(prev: seq<string>, line: string): (data: seq<string>)
    ensures Plain(line) ==>
      && data == Split(line, ',')
      && |data| == CountChar(line, ',') + 1
      && Join(data, ',') == line
    ensures Enclosed(line) ==>
      && |data| == CountChar(line, ',') + 1
      && forall i :: 0 <= i < |data| ==>
           IsStripped(data[i]) && '(' !in data[i] && ')' !in data[i] && ',' !in data[i]
    ensures OneSided(line) ==> data == prev
  {
    if Plain(line) then
      Split(line, ',')
    else if Enclosed(line) then
      var inner := RemoveChar(RemoveChar(line, '('), ')');
      RemoveCharSpec(line, '(');
      RemoveCharSpec(RemoveChar(line, '('), ')');
      var parts := Split(inner, ',');
      assert forall i :: 0 <= i < |parts| ==> forall x :: x in Strip(parts[i]) ==> x in parts[i] by {
        forall i | 0 <= i < |parts| { StripSlice(parts[i]); }
      }
      seq(|parts|, i requires 0 <= i < |parts| => Strip(parts[i]))
    else
      prev
  }

  /** Exactly which lines are refused: the empty plain line, an enclosed
      line made only of parentheses and whitespace, and a one-sided line
      when the previous attempt was refused too. */
  lemma RejectedIff(prev: seq<string>, line: string)
    ensures IsEmptyData(Tokenise(prev, line)) <==>
      || (Plain(line) && line == "")
      || (Enclosed(line) && forall x :: x in line ==> IsWhitespace(x) || x == '(' || x == ')')
      || (OneSided(line) && IsEmptyData(prev))
  {
    if Enclosed(line) {
      var t := RemoveChar(RemoveChar(line, '('), ')');
      RemoveCharSpec(line, '(');
      RemoveCharSpec(RemoveChar(line, '('), ')');
      var parts := Split(t, ',');
      CountCharZero(t, ',');
      StripAllWhitespace(t);
      if forall x :: x in line ==> IsWhitespace(x) || x == '(' || x == ')' {
        assert ',' !in t;
        assert |parts| == 1 && parts[0] == t;
        assert forall k :: 0 <= k < |t| ==> IsWhitespace(t[k]);
      }
      if IsEmptyData(Tokenise(prev, line)) {
        assert |parts| == 1 && parts[0] == t && Strip(t) == "";
        forall x | x in line && x != '(' && x != ')' ensures IsWhitespace(x) {
          assert x in t;
          var k :| 0 <= k < |t| && t[k] == x;
        }
      }
    }
  }

  /** What `data` holds after the first `k` lines; it starts as `[]`. */
  function DataAfter(lines: seq<string>, k: nat): seq<string>
    requires k <= |lines|
  {
    if k == 0 then [] else Tokenise(DataAfter(lines, k - 1), lines[k - 1])
  }

  /** The loop stops after line `n` with `data`: the first `n - 1` lines
      were refused and line `n` was not. */
  predicate AcceptedAt(lines: seq<string>, n: nat, data: seq<string>) {
    && 1 <= n <= |lines|
    && data == DataAfter(lines, n)
    && !IsEmptyData(data)
    && forall j :: 1 <= j < n ==> IsEmptyData(DataAfter(lines, j))
  }

  /** Every one of the lines was refused. */
  predicate AllRefused(lines: seq<string>) {
    forall j :: 1 <= j <= |lines| ==> IsEmptyData(DataAfter(lines, j))
  }

  datatype Accepted = Accepted(data: seq<string>, consumed: nat)

  /** The prompt loop over the lines the user types, in order. `None`
      means the lines ran out before one was accepted (the program would
      still be waiting at the prompt). */
  method ReadWholeList(lines: seq<string>) returns (r: Option<Accepted>)
    ensures r.Some? ==> AcceptedAt(lines, r.value.consumed, r.value.data)
    ensures r.None? ==> AllRefused(lines)
  {
    var data: seq<string> := [];
    var i := 0;
    while i < |lines|
      invariant 0 <= i <= |lines|
      invariant data == DataAfter(lines, i)
      invariant forall j :: 1 <= j <= i ==> IsEmptyData(DataAfter(lines, j))
    {
      data := Tokenise(data, lines[i]);
      i := i + 1;
      if !IsEmptyData(data) {
        return Some(Accepted(data, i));
      }
    }
    return None;
  }

  /** The loop's outcome is determined by the lines: it stops at one point only. */
  lemma AcceptedUnique(lines: seq<string>, n: nat, data: seq<string>, n': nat, data': seq<string>)
    requires AcceptedAt(lines, n, data) && AcceptedAt(lines, n', data')
    ensures n == n' && data == data'
  {
  }

  /** A first line with only one outer parenthesis keeps the initial `[]`,
      which the emptiness test does not refuse: the loop ends with no data. */
  lemma OneSidedFirstLine(lines: seq<string>)
    requires |lines| >= 1 && OneSided(lines[0])
    ensures AcceptedAt(lines, 1, [])
  {
    assert DataAfter(lines, 1) == Tokenise([], lines[0]);
  }

  /** Once a line has been refused, a one-sided line is refused again. */
  lemma OneSidedAfterRefusal(lines: seq<string>, k: nat)
    requires 1 <= k < |lines| && IsEmptyData(DataAfter(lines, k)) && OneSided(lines[k])
    ensures IsEmptyData(DataAfter(lines, k + 1))
  {
  }

  /** A plain line keeps the spaces after its commas. */
  lemma PlainExample()
    ensures Tokenise([], "1, 2, a, 4") == ["1", " 2", " a", " 4"]
  {
    var parts := ["1", " 2", " a", " 4"];
    assert Join(parts[3..], ',') == " 4";
    assert Join(parts[2..], ',') == " a, 4";
    assert Join(parts[1..], ',') == " 2, a, 4";
    assert Join(parts, ',') == "1, 2, a, 4";
    JoinSplit(parts, ',');
  }

  /** Writing items between `(` and `)`, separated by commas, is read back
      as the items with every parenthesis removed and their surrounding
      whitespace stripped, one token per item. Every enclosed line has this
      form, with its comma pieces as the items. */
  lemma EnclosedRoundTrip(prev: seq<string>, items: seq<string>)
    requires |items| >= 1
    requires forall i :: 0 <= i < |items| ==> ',' !in items[i]
    ensures var data := Tokenise(prev, ['('] + Join(items, ',') + [')']);
      && |data| == |items|
      && forall i :: 0 <= i < |items| ==> data[i] == Strip(RemoveChar(RemoveChar(items[i], '('), ')'))
  {
    var inner := Join(items, ',');
    var line := ['('] + inner + [')'];
    assert line[0] == '(' && line[|line| - 1] == ')';
    assert line == ['('] + (inner + [')']);
    RemoveCharAppend(['('], inner + [')'], '(');
    RemoveCharAppend(inner, [')'], '(');
    assert RemoveChar(['('], '(') == [];
    assert RemoveChar([')'], '(') == [')'];
    var noOpen := RemoveChar(inner, '(');
    assert RemoveChar(line, '(') == noOpen + [')'];
    RemoveCharAppend(noOpen, [')'], ')');
    assert RemoveChar([')'], ')') == [];
    assert RemoveChar(noOpen, ')') + [] == RemoveChar(noOpen, ')');
    var once := RemoveCharEach(items, '(');
    var twice := RemoveCharEach(once, ')');
    RemoveCharJoin(items, ',', '(');
    RemoveCharJoin(once, ',', ')');
    assert RemoveChar(RemoveChar(line, '('), ')') == Join(twice, ',');
    forall i | 0 <= i < |twice|
      ensures ',' !in twice[i]
    {
      RemoveCharSpec(items[i], '(');
      RemoveCharSpec(once[i], ')');
    }
    JoinSplit(twice, ',');
    TokeniseEnclosed(prev, line, Join(twice, ','), twice);
  }

  /** Every enclosed line is read this way: its tokens are the comma pieces
      of what lies between its outer parentheses, each with every `(` and
      `)` removed and then stripped. */
  lemma EnclosedTokens(prev: seq<string>, line: string)
    requires Enclosed(line)
    ensures var items := Split(line[1..|line| - 1], ',');
      && |Tokenise(prev, line)| == |items|
      && forall i :: 0 <= i < |items| ==> Tokenise(prev, line)[i] == Strip(RemoveChar(RemoveChar(items[i], '('), ')'))
  {
    var items := Split(line[1..|line| - 1], ',');
    assert line == ['('] + Join(items, ',') + [')'];
    EnclosedRoundTrip(prev, items);
  }

  /** An enclosed line is read as the stripped pieces of what is left once
      its parentheses are removed. */
  lemma TokeniseEnclosed(prev: seq<string>, line: string, inner: string, parts: seq<string>)
    requires Enclosed(line)
    requires RemoveChar(RemoveChar(line, '('), ')') == inner && Split(inner, ',') == parts
    ensures |Tokenise(prev, line)| == |parts|
    ensures forall i :: 0 <= i < |parts| ==> Tokenise(prev, line)[i] == Strip(parts[i])
  {
  }
}

/** `analysis` and the two entry modes that end in it: the tokens are
    filtered, the valid values sorted, and their mean, median and modes
    taken. Nothing catches the `StatisticsError` that `st.mean` raises when
    no token is valid; here it is the `Failure` of the result. */
module Analysis {
  import opened Wrappers
  import opened Validity
  import opened Statistics
  import opened WholeListInput
  import opened SingleInput

  /** What `analysis` prints: the mean, the median, the list of modes and
      the invalid tokens. */
  datatype Report = Report(mean: real, median: real, modes: seq<real>, invalid: seq<string>)

  /** `result` is what `analysis` yields for `data`: it raises exactly when
      no token parses; otherwise the mean times the number of valid values
      is their sum, the median is the median of the valid values, the modes
      are the most frequent valid values, each once and in ascending order,
      and the invalid tokens are reported as `filter` left them. */
  ghost predicate Describes(parse: Parser, data: seq<string>, result: Result<Report, StatsError>) {
    var valid := ValidOf(parse, data);
    && (result.Failure? <==> forall t :: t in data ==> parse(t).None?)
    && (result.Failure? ==> result.error == EmptyData)
    && (result.Success? ==>
         && Mean(valid) == Success(result.value.mean)
         && Median(valid) == Success(result.value.median)
         && result.value.modes == Multimode(Sorted(valid))
         && StrictlyAscending(result.value.modes)
         && (forall x :: x in result.value.modes <==>
               x in valid && forall y :: y in valid ==> multiset(valid)[y] <= multiset(valid)[x])
         && result.value.invalid == InvalidOf(parse, data))
  }

  /** `analysis(data)`: `filter`, `sorted`, then `st.mean`, `st.median` and
      `st.multimode` of the sorted copy. */
  method Analyze(parse: Parser, data: seq<string>) returns (result: Result<Report, StatsError>)
    ensures Describes(parse, data, result)
  {
    var valid, invalid := Filter(parse, data);
    NothingValid(parse, data);
    var sorted := Sorted(valid);
    StatisticsOfSorted(valid);
    var mean := Mean(sorted);
    if mean.Failure? {
      return Failure(mean.error);
    }
    var median := Median(sorted);
    var modes := Multimode(sorted);
    result := Success(Report(mean.value, median.value, modes, invalid));
  }

  /** The valid list is empty exactly when no token parses. */
  lemma NothingValid(parse: Parser, data: seq<string>)
    ensures ValidOf(parse, data) == [] <==> forall t :: t in data ==> parse(t).None?
  {
    ValidMembers(parse, data);
    if ValidOf(parse, data) != [] {
      assert ValidOf(parse, data)[0] in ValidOf(parse, data);
    }
  }

  /** Taking the statistics of the sorted copy, as `analysis` does, gives
      the statistics of the valid values themselves. */
  lemma StatisticsOfSorted(valid: seq<real>)
    ensures Mean(Sorted(valid)) == Mean(valid)
    ensures Median(Sorted(valid)) == Median(valid)
    ensures StrictlyAscending(Multimode(Sorted(valid)))
    ensures forall x :: x in Multimode(Sorted(valid)) <==>
      x in valid && forall y :: y in valid ==> multiset(valid)[y] <= multiset(valid)[x]
  {
    var sorted := Sorted(valid);
    MeanPermutation(sorted, valid);
    MedianPermutation(sorted, valid);
    MultimodeModes(sorted);
    MultimodeAscending(sorted);
    forall y ensures y in sorted <==> y in valid {
      assert y in sorted <==> y in multiset(sorted);
    }
  }

  /** `WholeList()`: the prompt loop, then `analysis` of the list it
      accepted. `None` means the lines ran out while the loop was still
      asking. A first line with only one outer parenthesis is accepted as
      the empty list, so `analysis` raises. */
  method WholeList(parse: Parser, lines: seq<string>) returns (r: Option<Result<Report, StatsError>>)
    ensures r.None? <==> AllRefused(lines)
    ensures r.Some? ==> exists n, data :: AcceptedAt(lines, n, data) && Describes(parse, data, r.value)
    ensures |lines| >= 1 && OneSided(lines[0]) ==> r == Some(Failure(EmptyData))
  {
    var accepted := ReadWholeList(lines);
    if |lines| >= 1 && OneSided(lines[0]) {
      OneSidedFirstLine(lines);
    }
    if accepted.None? {
      return None;
    }
    var data, n := accepted.value.data, accepted.value.consumed;
    var result := Analyze(parse, data);
    assert 1 <= n <= |lines| && !IsEmptyData(DataAfter(lines, n));
    if |lines| >= 1 && OneSided(lines[0]) {
      AcceptedUnique(lines, n, data, 1, []);
    }
    return Some(result);
  }

  /** `Single()`: the collection loop, then `analysis` of what it collected.
      `None` means the lines ran out before `done` ended collection. */
  method Single(parse: Parser, lines: seq<string>) returns (r: Option<Result<Report, StatsError>>)
    ensures r.None? <==> forall j :: 1 <= j < |lines| ==> !IsDone(lines[j])
    ensures r.Some? ==> exists n, data :: StopsAt(lines, n) && TrimmedPrefix(lines, n, data) && Describes(parse, data, r.value)
  {
    var collected := ReadSingle(lines);
    match collected {
      case None =>
        return None;
      case Some(Collected(data, _)) =>
        var result := Analyze(parse, data);
        return Some(result);
    }
  }

  /** The tokens of the line `1, 2, a, 4` (see `PlainExample`) keep the
      spaces after the commas; the one `analysis` reports as invalid is
      `" a"`, and the mean of the rest is 7/3. */
  lemma PlainLineExample(parse: Parser, data: seq<string>)
    requires data == ["1", " 2", " a", " 4"]
    requires parse("1") == Some(1.0) && parse(" 2") == Some(2.0)
    requires parse(" a") == None && parse(" 4") == Some(4.0)
    ensures ValidOf(parse, data) == [1.0, 2.0, 4.0]
    ensures InvalidOf(parse, data) == [" a"]
    ensures Mean(ValidOf(parse, data)) == Success(7.0 / 3.0)
  {
    FilterOne(parse, "1");
    FilterOne(parse, " 2");
    FilterOne(parse, " a");
    FilterOne(parse, " 4");
    FilterAppend(parse, ["1"], [" 2"]);
    FilterAppend(parse, ["1", " 2"], [" a"]);
    FilterAppend(parse, ["1", " 2", " a"], [" 4"]);
    assert data == ["1", " 2", " a"] + [" 4"];
    assert Sum([1.0, 2.0, 4.0]) == 7.0;
  }
}

/** One-at-a-time entry: every typed line is appended, trimmed, until the
    word `done` (any case, surrounding whitespace ignored) is typed while
    the list already holds something. */
module SingleInput {
  import opened Wrappers
  import opened Strings

  /** `line.lower().strip() == "done"` */
  predicate IsDone(line: string) {
    Strip(Lower(line)) == "done"
  }

  /** Trimming a line does not change whether it is the sentinel. */
  lemma DoneOfStripped(line: string)
    ensures IsDone(Strip(line)) == IsDone(line)
  {
    calc {
      Strip(Lower(Strip(line)));
      { StripLower(Strip(line)); }
      Lower(Strip(Strip(line)));
      { StripIdempotent(line); }
      Lower(Strip(line));
      { StripLower(line); }
      Strip(Lower(line));
    }
  }

  /** Collection ends at line `n`: it is `done`, the list is non-empty by
      then (`n >= 1`), and no earlier line after the first was `done`. A
      `done` at line 0 does not end collection. */
  predicate StopsAt(lines: seq<string>, n: nat) {
    && 1 <= n < |lines|
    && IsDone(lines[n])
    && forall j :: 1 <= j < n ==> !IsDone(lines[j])
  }

  /** `data` holds the first `n` lines, each trimmed, in order. */
  predicate TrimmedPrefix(lines: seq<string>, n: nat, data: seq<string>) {
    && n <= |lines|
    && |data| == n
    && forall k :: 0 <= k < n ==> data[k] == Strip(lines[k])
  }

  datatype Collected = Collected(data: seq<string>, consumed: nat)

  /** The prompt loop over the lines the user types, in order. A `done` on
      the empty list prints an error and then, with no `continue`, falls
      through to the append. `None` means the lines ran out before the
      sentinel ended collection. */
  method ReadSingle(lines: seq<string>) returns (r: Option<Collected>)
    ensures r.Some? ==>
      && r.value.consumed >= 2
      && StopsAt(lines, r.value.consumed - 1)
      && TrimmedPrefix(lines, r.value.consumed - 1, r.value.data)
    ensures r.None? ==> forall j :: 1 <= j < |lines| ==> !IsDone(lines[j])
  {
    var data: seq<string> := [];
    var i := 0;
    while i < |lines|
      invariant 0 <= i <= |lines|
      invariant TrimmedPrefix(lines, i, data)
      invariant forall j :: 1 <= j < i ==> !IsDone(lines[j])
    {
      var line := lines[i];
      if IsDone(line) {
        if |data| >= 1 {
          return Some(Collected(data, i + 1));
        }
        // "Data can't be empty" is printed here; control reaches the append below.
      }
      var entry := Strip(line);
      data := data + [entry];
      i := i + 1;
    }
    return None;
  }

  /** What the collected list holds: it is never empty, every entry is
      trimmed, no entry after the first is the sentinel, and the first entry
      is the sentinel itself exactly when the first line typed was `done`. */
  lemma CollectedEntries(lines: seq<string>, n: nat, data: seq<string>)
    requires StopsAt(lines, n) && TrimmedPrefix(lines, n, data)
    ensures |data| >= 1
    ensures forall k :: 0 <= k < |data| ==> IsStripped(data[k])
    ensures forall k :: 1 <= k < |data| ==> !IsDone(data[k])
    ensures IsDone(data[0]) <==> IsDone(lines[0])
  {
    forall k | 0 <= k < |data| ensures IsDone(data[k]) == IsDone(lines[k]) {
      DoneOfStripped(lines[k]);
    }
  }

  /** The collection's outcome is determined by the lines. */
  lemma StopsAtUnique(lines: seq<string>, n: nat, n': nat)
    requires StopsAt(lines, n) && StopsAt(lines, n')
    ensures n == n'
  {
  }
}

/**
 * Turning an operator's comma-separated list of 1-based numbers into a selection from a
 * list, as both transfer scripts do: split on ',', strip each entry, `int()` it, subtract
 * one, then index the list with Python's indexing rules.
 */
module Selection {
  import opened Wrappers
  import opened Strings

  datatype SelectionError =
    | ValueError          // an entry that `int()` rejects
    | IndexError(index: int)  // an index outside -len .. len-1

  /** The number an entry denotes, if `int(entry.strip())` accepts it. */
  function EntryNumber(entry: string): (r: Option<int>)
    ensures r.Some? <==> IsIntText(Strip(entry))
  {
    ParseInt(Strip(entry))
  }

  /** A number the operator types between spaces, tabs or newlines is read back as itself. */
  lemma EntryNumberRoundTrip(ws1: string, i: int, ws2: string)
    requires forall k :: 0 <= k < |ws1| ==> IsSpace(ws1[k])
    requires forall k :: 0 <= k < |ws2| ==> IsSpace(ws2[k])
    ensures EntryNumber(ws1 + IntToString(i) + ws2) == Some(i)
  {
    var t := IntToString(i);
    assert !IsSpace(t[0]) && !IsSpace(t[|t| - 1]) by {
      if i < 0 {
        assert t[|t| - 1] == t[1..][|t| - 2];
      }
    }
    StripExact(ws1, t, ws2);
    IntRoundTrip(i);
  }

  /** `items[i]` with Python's rules: negative indices count from the end. */
  function PyIndex<T>(items: seq<T>, i: int): (r: Result<T, SelectionError>)
    ensures r.Success? <==> -|items| <= i < |items|
    ensures 0 <= i < |items| ==> r == Success(items[i])
    ensures -|items| <= i < 0 ==> r == Success(items[|items| + i])
    ensures r.Failure? ==> r.error == IndexError(i)
  {
    if 0 <= i < |items| then Success(items[i])
    else if -|items| <= i < 0 then Success(items[|items| + i])
    else Failure(IndexError(i))
  }

  /** `[n - 1 for n in numbers]`, where the first number `int()` could not produce is the error. */
  function ZeroBasedIndices(numbers: seq<Option<int>>): (r: Result<seq<int>, SelectionError>)
    ensures r.Success? <==> forall j :: 0 <= j < |numbers| ==> numbers[j].Some?
    ensures r.Failure? ==> r.error == ValueError
    ensures r.Success? ==> (|r.value| == |numbers|
      && forall j :: 0 <= j < |numbers| ==> r.value[j] == numbers[j].value - 1)
  {
    if numbers == [] then Success([])
    else
      match numbers[0]
      case None => Failure(ValueError)
      case Some(k) =>
        match ZeroBasedIndices(numbers[1..])
        case Failure(e) => Failure(e)
        case Success(ks) => Success([k - 1] + ks)
  }

  /** `[items[i] for i in indices]`: the first index out of range is the error. */
  function PickAll<T>(items: seq<T>, indices: seq<int>): (r: Result<seq<T>, SelectionError>)
    ensures r.Success? <==> forall j :: 0 <= j < |indices| ==> -|items| <= indices[j] < |items|
    ensures r.Success? ==> (|r.value| == |indices|
      && forall j :: 0 <= j < |indices| ==> Success(r.value[j]) == PyIndex(items, indices[j]))
    ensures r.Failure? ==> r.error.IndexError?
  {
    if indices == [] then Success([])
    else
      match PyIndex(items, indices[0])
      case Failure(e) => Failure(e)
      case Success(x) =>
        match PickAll(items, indices[1..])
        case Failure(e) => Failure(e)
        case Success(xs) => Success([x] + xs)
  }

  /** A number that parsed and names a position Python's indexing accepts. */
  predicate ValidNumber(number: Option<int>, n: nat)
  {
    number.Some? && -(n as int) < number.value <= n
  }

  /**
   * Picks by 1-based numbers; indices are computed for all entries before any is used.
   * The selection succeeds exactly when every number parsed and is in 1-len..len. It then
   * keeps entry order and repeats: k in 1..len picks items[k-1], and k in 1-len..0 picks
   * items[len+k-1] (Python's negative indexing). A number that did not parse makes it a
   * ValueError, even when an earlier number is out of range; when all parsed, a number out
   * of range makes it an IndexError.
   */
  function SelectNumbers<T>(numbers: seq<Option<int>>, items: seq<T>): (r: Result<seq<T>, SelectionError>)
    ensures r.Success? <==> forall j :: 0 <= j < |numbers| ==> ValidNumber(numbers[j], |items|)
    ensures r.Success? ==> |r.value| == |numbers| && forall j :: 0 <= j < |numbers| ==>
      r.value[j] == if numbers[j].value >= 1 then items[numbers[j].value - 1]
                    else items[|items| + numbers[j].value - 1]
    ensures (exists j :: 0 <= j < |numbers| && numbers[j].None?) ==> r == Failure(ValueError)
    ensures (forall j :: 0 <= j < |numbers| ==> numbers[j].Some?) && r.Failure? ==> r.error.IndexError?
  {
    match ZeroBasedIndices(numbers)
    case Failure(e) => Failure(e)
    case Success(indices) => PickAll(items, indices)
  }

  /** The whole selection: `[items[i] for i in [int(e.strip()) - 1 for e in entered.split(',')]]`. */
  function SelectByNumbers<T>(entered: string, items: seq<T>): (r: Result<seq<T>, SelectionError>)
    ensures r.Success? ==> |r.value| == |Split(entered, ',')|
    ensures r.Success? ==> forall x :: x in r.value ==> x in items
  {
    var entries := Split(entered, ',');
    var numbers := seq(|entries|, j requires 0 <= j < |entries| => EntryNumber(entries[j]));
    SelectNumbers(numbers, items)
  }

  /** Entering k, with 1 <= k <= len, picks items[k-1]; entering 0 picks the last item. */
  lemma SelectSingleNumber<T>(entered: string, items: seq<T>, k: int)
    requires ',' !in entered && EntryNumber(entered) == Some(k)
    requires 0 <= k <= |items| && |items| > 0
    ensures SelectByNumbers(entered, items) == Success([items[if k == 0 then |items| - 1 else k - 1]])
  {
    SingleEntry(entered);
    assert SelectByNumbers(entered, items) == SelectNumbers([Some(k)], items);
    SelectOneNumber(items, k);
  }

  /** One number k in 0..len picks one item, by Python's indexing of k - 1. */
  lemma SelectOneNumber<T>(items: seq<T>, k: int)
    requires 0 <= k <= |items| && |items| > 0
    ensures SelectNumbers([Some(k)], items) == Success([items[if k == 0 then |items| - 1 else k - 1]])
  {
    var numbers, indices := [Some(k)], [k - 1];
    var parsed := ZeroBasedIndices(numbers);
    assert parsed.Success? && |parsed.value| == 1 && parsed.value[0] == indices[0];
    assert parsed.value == indices;
    var picked := PickAll(items, indices);
    assert picked.Success? && Success(picked.value[0]) == PyIndex(items, indices[0]);
    assert picked.value == [picked.value[0]];
    assert SelectNumbers(numbers, items) == picked;
  }

  /** Text without a comma is one entry, whose number is the only one. */
  lemma SingleEntry(entered: string)
    requires ',' !in entered
    ensures var entries := Split(entered, ',');
      seq(|entries|, j requires 0 <= j < |entries| => EntryNumber(entries[j])) == [EntryNumber(entered)]
  {
    SplitJoin([entered], ',');
    assert Join([','], [entered]) == entered;
    assert Split(entered, ',') == [entered];
  }
}

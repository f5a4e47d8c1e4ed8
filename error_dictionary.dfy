/**
 * `ErrorDictionary`: an error that collects other errors under keys. Its
 * renderings list one line per stored error after a blank line; with no
 * errors they are empty, because the heading fields are never assigned.
 */
module ErrorDictionaries {
  import opened Wrappers
  import opened Sequences

  /** An `NSError` as the dictionary uses it: its two renderings. */
  datatype NSError = NSError(description: string, localizedDescription: string)

  const ErrorsKey: string := "Errors"
  const NSLocalizedDescriptionKey: string := "NSLocalizedDescription"

  /** A `userInfo` value: the error map itself, or a string. */
  datatype InfoValue = ErrorMap(errors: map<string, NSError>) | Text(text: string)

  /** The line for one entry: `"\n<key>: <rendering>"`. */
  function Line(key: string, e: NSError, localized: bool): string
  {
    "\n" + key + ": " + (if localized then e.localizedDescription else e.description)
  }

  /** The lines of the entries named by `keys`, in that order. */
  function Lines(keys: seq<string>, errors: map<string, NSError>, localized: bool): string
    requires forall i :: 0 <= i < |keys| ==> keys[i] in errors
  {
    if |keys| == 0 then ""
    else Lines(keys[..|keys| - 1], errors, localized) + Line(keys[|keys| - 1], errors[keys[|keys| - 1]], localized)
  }

  /** `order` lists every key of the dictionary exactly once. */
  ghost predicate Enumerates(order: seq<string>, keys: set<string>)
  {
    && |order| == |keys|
    && (forall i :: 0 <= i < |order| ==> order[i] in keys)
    && (forall k :: k in keys ==> k in order)
    && (forall i, j :: 0 <= i < j < |order| ==> order[i] != order[j])
  }

  /** The lines of two runs of keys follow one another. */
  lemma {:induction false} LinesAppend(a: seq<string>, b: seq<string>, errors: map<string, NSError>, localized: bool)
    requires forall i :: 0 <= i < |a| ==> a[i] in errors
    requires forall i :: 0 <= i < |b| ==> b[i] in errors
    ensures Lines(a + b, errors, localized) == Lines(a, errors, localized) + Lines(b, errors, localized)
    decreases |b|
  {
    if |b| == 0 {
      assert a + b == a;
    } else {
      var n, ab := |b| - 1, a + b;
      LinesAppend(a, b[..n], errors, localized);
      var last := Line(b[n], errors[b[n]], localized);
      AppendButLast(a, b);
      assert Lines(ab, errors, localized) == Lines(a + b[..n], errors, localized) + last;
      assert Lines(b, errors, localized) == Lines(b[..n], errors, localized) + last;
    }
  }

  /**
   * Every listed entry has its own line: the rendering is the lines before
   * it, its line, and the lines after it.
   */
  lemma LineOfEntry(order: seq<string>, errors: map<string, NSError>, localized: bool, i: int)
    requires forall k :: 0 <= k < |order| ==> order[k] in errors
    requires 0 <= i < |order|
    ensures Lines(order, errors, localized) ==
            Lines(order[..i], errors, localized) + Line(order[i], errors[order[i]], localized) +
            Lines(order[i + 1..], errors, localized)
  {
    assert order == order[..i + 1] + order[i + 1..];
    LinesAppend(order[..i + 1], order[i + 1..], errors, localized);
    assert order[..i + 1][..i] == order[..i];
  }

  class ErrorDictionary {
    var errors: map<string, NSError>

    /** `init(minimumCapacity:)`: no errors yet. */
    constructor ()
      ensures errors == map[]
    {
      errors := map[];
    }

    /** Subscript get: the error stored under `key`, if any. */
    function Get(key: string): (r: Option<NSError>)
      reads this
      ensures r.Some? <==> key in errors
      ensures r.Some? ==> r.value == errors[key]
    {
      if key in errors then Some(errors[key]) else None
    }

    /** Subscript set: stores the error, or removes the key when given none; other keys keep their entries. */
    method Set(key: string, newValue: Option<NSError>)
      modifies this
      ensures Get(key) == newValue
      ensures forall k :: k != key ==> Get(k) == old(Get(k))
      ensures errors.Keys == if newValue.Some? then old(errors.Keys) + {key} else old(errors.Keys) - {key}
    {
      if newValue.Some? {
        errors := errors[key := newValue.value];
      } else {
        errors := errors - {key};
      }
    }

    /** `count`: one per stored key. */
    function Count(): (n: nat)
      reads this
      ensures n == |errors.Keys|
      ensures n == 0 <==> errors == map[]
    {
      |errors|
    }

    /**
     * The loop shared by `description` and `localizedDescription`: "" with no
     * errors, otherwise "\n" and then one line per entry, in the dictionary's
     * own (unspecified) order, which `order` reports.
     */
    method Render(localized: bool) returns (d: string, ghost order: seq<string>)
      ensures Enumerates(order, errors.Keys)
      ensures d == if |errors| == 0 then "" else "\n" + Lines(order, errors, localized)
    {
      d := "";
      order := [];
      if |errors| > 0 {
        d := "\n";
        var remaining := errors.Keys;
        while remaining != {}
          invariant Rendering(errors, localized, remaining, order, d)
          decreases remaining
        {
          d, order, remaining := RenderOne(errors, localized, remaining, order, d);
        }
      }
    }

    /** Part way through the loop: `order` already rendered into `d`, `remaining` still to come. */
    static ghost predicate Rendering(errors: map<string, NSError>, localized: bool, remaining: set<string>,
                                     order: seq<string>, d: string)
    {
      && remaining <= errors.Keys && |order| + |remaining| == |errors.Keys|
      && (forall i :: 0 <= i < |order| ==> order[i] in errors && order[i] !in remaining)
      && (forall k :: k in errors ==> k in remaining || k in order)
      && (forall i, j :: 0 <= i < j < |order| ==> order[i] != order[j])
      && d == "\n" + Lines(order, errors, localized)
    }

    /** One pass of the loop: some remaining key is rendered next. */
    static method RenderOne(errors: map<string, NSError>, localized: bool, remaining: set<string>,
                            ghost order: seq<string>, d: string)
      returns (d': string, ghost order': seq<string>, remaining': set<string>)
      requires remaining != {} && Rendering(errors, localized, remaining, order, d)
      ensures Rendering(errors, localized, remaining', order', d') && remaining' < remaining
    {
      var key :| key in remaining;
      d' := d + Line(key, errors[key], localized);
      order' := order + [key];
      assert order'[..|order'| - 1] == order;
      remaining' := remaining - {key};
    }

    /** `description`: the entries rendered with each error's `description`. */
    method Description() returns (d: string, ghost order: seq<string>)
      ensures Enumerates(order, errors.Keys)
      ensures d == if |errors| == 0 then "" else "\n" + Lines(order, errors, false)
    {
      d, order := Render(false);
    }

    /** `localizedDescription`: the entries rendered with each error's `localizedDescription`. */
    method LocalizedDescription() returns (d: string, ghost order: seq<string>)
      ensures Enumerates(order, errors.Keys)
      ensures d == if |errors| == 0 then "" else "\n" + Lines(order, errors, true)
    {
      d, order := Render(true);
    }

    /** `userInfo`: exactly the error map under "Errors" and the localized rendering under the description key. */
    method UserInfo() returns (info: map<string, InfoValue>, ghost order: seq<string>)
      ensures info.Keys == {ErrorsKey, NSLocalizedDescriptionKey}
      ensures info[ErrorsKey] == ErrorMap(errors)
      ensures Enumerates(order, errors.Keys)
      ensures info[NSLocalizedDescriptionKey] == Text(if |errors| == 0 then "" else "\n" + Lines(order, errors, true))
    {
      var d;
      d, order := LocalizedDescription();
      info := map[ErrorsKey := ErrorMap(errors), NSLocalizedDescriptionKey := Text(d)];
    }
  }

  /** One error stored under "a" renders as "\n\na: bad". */
  method ErrorDictionaryScenario() returns (d: string, n: nat)
    ensures d == "\n\na: bad" && n == 1
  {
    var dictionary := new ErrorDictionary();
    dictionary.Set("a", Some(NSError("bad", "Bad")));
    ghost var order;
    d, order := dictionary.Description();
    n := dictionary.Count();
    assert order == ["a"] by {
      assert |order| == 1 && order[0] in {"a"};
    }
  }
}

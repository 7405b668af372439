/** The optional value used wherever the source reads a field that may be
    missing or a value that may be `None`, and the list of the present
    values of a sequence of optional ones (a loop that appends a result
    only for some iterations). */
module Wrappers {
  datatype Option<+T> = None | Some(value: T) {
    function GetOr(default: T): T {
      match this
      case Some(v) => v
      case None => default
    }
  }

  /** The present values, in order. */
  function Somes<T>(opts: seq<Option<T>>): seq<T> {
    if |opts| == 0 then []
    else Somes(opts[..|opts| - 1]) + (if opts[|opts| - 1].Some? then [opts[|opts| - 1].value] else [])
  }

  /** One more entry adds its value when it has one. */
  lemma SomesStep<T>(opts: seq<Option<T>>, i: nat)
    requires i < |opts|
    ensures Somes(opts[..i + 1]) == Somes(opts[..i]) + (if opts[i].Some? then [opts[i].value] else [])
  {
    assert opts[..i + 1][..i] == opts[..i];
  }

  /** The values present among the first `m` come first. */
  lemma {:induction false} SomesPrefix<T>(opts: seq<Option<T>>, m: nat)
    requires m <= |opts|
    ensures Somes(opts[..m]) <= Somes(opts)
  {
    if m < |opts| {
      assert opts[..|opts| - 1][..m] == opts[..m];
      SomesPrefix(opts[..|opts| - 1], m);
    } else {
      assert opts[..m] == opts;
    }
  }

  /** The present values are exactly the `Some` entries, at most one each. */
  lemma {:induction false} SomesMembers<T>(opts: seq<Option<T>>)
    ensures |Somes(opts)| <= |opts|
    ensures forall j :: 0 <= j < |opts| && opts[j].Some? ==> opts[j].value in Somes(opts)
    ensures forall x :: x in Somes(opts) ==> exists j :: 0 <= j < |opts| && opts[j] == Some(x)
  {
    if |opts| > 0 {
      var init := opts[..|opts| - 1];
      SomesMembers(init);
      forall j | 0 <= j < |opts| && opts[j].Some? ensures opts[j].value in Somes(opts) {
        if j < |init| { assert init[j] == opts[j]; }
      }
      forall x | x in Somes(opts) ensures exists j :: 0 <= j < |opts| && opts[j] == Some(x) {
        if x in Somes(init) {
          var j :| 0 <= j < |init| && init[j] == Some(x);
          assert opts[j] == Some(x);
        }
      }
    }
  }
}

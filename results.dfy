/** Typed outcomes for the scraper's lookups and for the exceptions its
    operations let through. */
module Results {

  /** The outcome of a browser lookup that the source wraps in a catch-all:
      either the value was found or the lookup fell back to its default. */
  datatype Lookup<+T> = Found(value: T) | Absent

  /** The Python exceptions the modelled operations can raise. */
  datatype Error =
    | DriverError        // the browser session failed outside a guarded lookup
    | AssertionError     // an `assert` in the source failed
    | IndexError         // indexing past the end of a list
    | KeyError           // a missing key in a response dictionary
    | FileNotFoundError  // opening a local file that does not exist
    | AttributeError     // using `None` as an object (a GCS blob that does not exist)
    | NoSuchKey          // fetching an S3 object that does not exist

  datatype Result<+T> = Ok(value: T) | Err(error: Error)

  /** A loop that applies `f` to each element in order and stops at the
      first exception: all the results, or that first error. */
  function MapResults<X, T>(xs: seq<X>, f: X -> Result<T>): (r: Result<seq<T>>)
    ensures r.Ok? <==> forall i :: 0 <= i < |xs| ==> f(xs[i]).Ok?
    ensures r.Ok? ==> (|r.value| == |xs| && forall i :: 0 <= i < |xs| ==> f(xs[i]) == Ok(r.value[i]))
    ensures r.Err? ==> exists i :: (0 <= i < |xs| && f(xs[i]) == Err(r.error) &&
                                    forall j :: 0 <= j < i ==> f(xs[j]).Ok?)
    decreases |xs|
  {
    if xs == [] then Ok([])
    else
      var first := f(xs[0]);
      var rest := MapResults(xs[1..], f);
      if first.Err? then Err(first.error)
      else if rest.Err? then
        FirstErrorShifts(xs, f, rest.error);
        Err(rest.error)
      else Ok([first.value] + rest.value)
  }

  /** An error that is the first one in the tail, behind a successful head,
      is the first one in the whole sequence. */
  lemma FirstErrorShifts<X, T>(xs: seq<X>, f: X -> Result<T>, e: Error)
    requires xs != [] && f(xs[0]).Ok?
    requires exists i :: (0 <= i < |xs[1..]| && f(xs[1..][i]) == Err(e) &&
                          forall j :: 0 <= j < i ==> f(xs[1..][j]).Ok?)
    ensures exists i :: (0 <= i < |xs| && f(xs[i]) == Err(e) &&
                         forall j :: 0 <= j < i ==> f(xs[j]).Ok?)
  {
    var i :| 0 <= i < |xs[1..]| && f(xs[1..][i]) == Err(e) &&
      forall j :: 0 <= j < i ==> f(xs[1..][j]).Ok?;
    assert f(xs[i + 1]) == Err(e);
    forall j | 0 <= j < i + 1 ensures f(xs[j]).Ok? {
      if j > 0 {
        assert xs[j] == xs[1..][j - 1];
      }
    }
  }
}

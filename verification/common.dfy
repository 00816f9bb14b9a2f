/**
 * What every partitioner shares: the errors it raises, the exactly-one-source
 * rule of `exactly_one`, and the precedence of the `last_modified` metadata.
 */
module Common {
  import opened Wrappers
  import opened PyStr

  /** The exceptions the partitioners raise, one constructor per cause. */
  datatype Error =
    | InputSelectionError                  // `exactly_one` rejected the sources (a ValueError)
    | FileNotFound(path: string)           // opening a path that is not in the filesystem
    | DecodeError                          // `UnicodeDecodeError` while decoding bytes
    | ParseError                           // lxml rejected the document
    | XPathError                           // the `xml_path` expression did not evaluate to elements
    | RequestError(url: string)            // `requests.get` itself failed
    | UrlStatusError(statusCode: int)      // "URL return an error: <status>"
    | ContentTypeError(contentType: string) // "Expected content type text/markdown. Got <type>."

  /** How many of the flags are set. */
  function Count(flags: seq<bool>): (n: nat)
    ensures n <= |flags|
    ensures n == 0 <==> forall i :: 0 <= i < |flags| ==> !flags[i]
  {
    if flags == [] then 0 else (if flags[0] then 1 else 0) + Count(flags[1..])
  }

  /** The count of a three-flag list, spelled out. */
  lemma Count3(a: bool, b: bool, c: bool)
    ensures Count([a, b, c]) == (if a then 1 else 0) + (if b then 1 else 0) + (if c then 1 else 0)
  {
    assert [c][1..] == [];
    assert Count([c]) == (if c then 1 else 0);
    assert [b, c][1..] == [c];
    assert Count([b, c]) == (if b then 1 else 0) + (if c then 1 else 0);
    assert [a, b, c][1..] == [b, c];
  }

  /** The count of a four-flag list, spelled out. */
  lemma Count4(a: bool, b: bool, c: bool, d: bool)
    ensures Count([a, b, c, d]) ==
            (if a then 1 else 0) + (if b then 1 else 0) + (if c then 1 else 0) + (if d then 1 else 0)
  {
    assert [a, b, c, d][1..] == [b, c, d];
    Count3(b, c, d);
  }

  /** An argument `exactly_one` counts as supplied: not `None` and not the empty string. */
  predicate Supplied(arg: Option<string>) {
    Truthy(arg)
  }

  /**
   * `exactly_one(**kwargs)` succeeds when exactly one of its arguments is
   * supplied, and raises a ValueError otherwise.
   */
  function ExactlyOne(supplied: seq<bool>): (r: Result<(), Error>)
    ensures r.Err? ==> r.error == InputSelectionError
  {
    if Count(supplied) == 1 then Ok(()) else Err(InputSelectionError)
  }

  /** One set flag with every other flag clear counts as one. */
  lemma {:induction false} CountOfSingle(supplied: seq<bool>, i: int)
    requires 0 <= i < |supplied| && supplied[i]
    requires forall j :: 0 <= j < |supplied| && j != i ==> !supplied[j]
    ensures Count(supplied) == 1
  {
    var tail := supplied[1..];
    if i == 0 {
      assert forall j :: 0 <= j < |tail| ==> !tail[j] by {
        forall j | 0 <= j < |tail| ensures !tail[j] { assert tail[j] == supplied[j + 1]; }
      }
    } else {
      assert !supplied[0];
      forall j | 0 <= j < |tail| && j != i - 1 ensures !tail[j] {
        assert tail[j] == supplied[j + 1];
      }
      CountOfSingle(tail, i - 1);
    }
  }

  /** A flag list that counts one has a set flag with every other flag clear. */
  lemma {:induction false} SingleOfCount(supplied: seq<bool>)
    requires Count(supplied) == 1
    ensures exists i :: 0 <= i < |supplied| && supplied[i] &&
              forall j :: 0 <= j < |supplied| && j != i ==> !supplied[j]
  {
    var tail := supplied[1..];
    if supplied[0] {
      forall j | 0 <= j < |supplied| && j != 0 ensures !supplied[j] {
        assert supplied[j] == tail[j - 1];
      }
    } else {
      SingleOfCount(tail);
      var i :| 0 <= i < |tail| && tail[i] && forall j :: 0 <= j < |tail| && j != i ==> !tail[j];
      forall j | 0 <= j < |supplied| && j != i + 1 ensures !supplied[j] {
        if j > 0 { assert supplied[j] == tail[j - 1]; }
      }
      assert supplied[i + 1] == tail[i];
    }
  }

  /** `ExactlyOne` accepts precisely the flag lists with one set flag and every other flag clear. */
  lemma ExactlyOneIff(supplied: seq<bool>)
    ensures ExactlyOne(supplied).Ok? <==>
              exists i :: 0 <= i < |supplied| && supplied[i] &&
                forall j :: 0 <= j < |supplied| && j != i ==> !supplied[j]
  {
    if Count(supplied) == 1 {
      SingleOfCount(supplied);
    }
    if exists i :: 0 <= i < |supplied| && supplied[i] &&
         forall j :: 0 <= j < |supplied| && j != i ==> !supplied[j] {
      var i :| 0 <= i < |supplied| && supplied[i] &&
               forall j :: 0 <= j < |supplied| && j != i ==> !supplied[j];
      CountOfSingle(supplied, i);
    }
  }

  /**
   * The `last_modified` handed to the metadata: `metadata_last_modified or
   * last_modification_date`, where the filesystem date is looked up only
   * when a (truthy) filename was given.
   */
  function LastModified(explicit: Option<string>, filename: Option<string>,
                        filesystemDate: string -> Option<string>): (r: Option<string>)
    ensures Truthy(explicit) ==> r == explicit
    ensures !Truthy(explicit) && Truthy(filename) ==> r == filesystemDate(filename.value)
    ensures !Truthy(explicit) && !Truthy(filename) ==> r == None
  {
    Or(explicit, if Truthy(filename) then filesystemDate(filename.value) else None)
  }
}

/** Values shared by the fetch script and the quarantine script: an optional
    value, bytes, Python's substring test on `str`, and the reddit submission
    as both scripts see it. */
module Base {

  datatype Option<T> = None | Some(value: T)

  newtype byte = x: int | 0 <= x < 256

  type Bytes = seq<byte>

  /** `sub` occurs in `s` starting at index `i`. */
  ghost predicate OccursAt(s: string, sub: string, i: int) {
    0 <= i && i + |sub| <= |s| && s[i..i + |sub|] == sub
  }

  /** Python's `sub in s` on two strings. */
  function Contains(s: string, sub: string): (r: bool)
    ensures r <==> exists i :: OccursAt(s, sub, i)
    decreases |s|
  {
    if |s| < |sub| then false
    else if s[..|sub|] == sub then (assert OccursAt(s, sub, 0); true)
    else
      var rest := Contains(s[1..], sub);
      assert forall i :: OccursAt(s[1..], sub, i) ==> OccursAt(s, sub, i + 1) by {
        forall i | OccursAt(s[1..], sub, i) ensures OccursAt(s, sub, i + 1) {
          assert s[1..][i..i + |sub|] == s[i + 1..i + 1 + |sub|];
        }
      }
      assert forall i :: OccursAt(s, sub, i) ==> OccursAt(s[1..], sub, i - 1) by {
        forall i | OccursAt(s, sub, i) ensures OccursAt(s[1..], sub, i - 1) {
          assert i != 0;
          assert s[1..][i - 1..i - 1 + |sub|] == s[i..i + |sub|];
        }
      }
      rest
  }

  /** Python truthiness of an optional string: present and not empty. */
  predicate Truthy(o: Option<string>) {
    o.Some? && o.value != ""
  }

  /** A reddit full-name such as `t3_abc123`: a kind tag, an underscore and a
      base-36 id. The model relies only on this much of its shape. */
  predicate IsFullName(s: string) {
    |s| > 0 && s[0] != '.' && '/' !in s
  }

  type FullName = s: string | IsFullName(s) witness "t3_0"

  /** A submission as the API client hands it over. `approvedBy` is `Some`
      exactly when the object carries an `approved_by` attribute. */
  datatype Submission = Submission(
    fullname: FullName,
    url: string,
    permalink: string,
    approvedBy: Option<string>)
}

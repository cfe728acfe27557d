/** Shared vocabulary: optional values, HTTP error results, and the few string
    operations the backend borrows from Python's `str` type. */
module Common {

  /** An optional value: `None` stands for Python's `None` / JavaScript's `null`. */
  datatype Option<+T> = None | Some(value: T) {
    function GetOr(default: T): T {
      match this
      case Some(v) => v
      case None => default
    }
  }

  /** An absent list read as the empty list: the tags of a new post, or an argument
      of the cache merge that is not an array. */
  function OrEmpty<T>(o: Option<seq<T>>): (r: seq<T>)
    ensures o.Some? ==> r == o.value
    ensures o.None? ==> r == []
  {
    o.GetOr([])
  }

  /** The HTTP error statuses the modelled endpoints raise. */
  datatype Status = BadRequest | Unauthorized | Forbidden | NotFound | Unprocessable | InternalError {
    function Code(): nat {
      match this
      case BadRequest => 400
      case Unauthorized => 401
      case Forbidden => 403
      case NotFound => 404
      case Unprocessable => 422
      case InternalError => 500
    }
  }

  /** A successful response value, or an `HTTPException` with its status and detail text. */
  datatype Result<+T> = Ok(value: T) | Err(status: Status, detail: string)

  /** Backend time, in whole seconds on one absolute clock. */
  type Time = nat

  /** Python truthiness of an optional string: `None` and `""` are both false. */
  predicate Truthy(s: Option<string>) {
    s.Some? && |s.value| > 0
  }

  /** `s.startswith(prefix)`. */
  predicate StartsWith(s: string, prefix: string) {
    |prefix| <= |s| && s[..|prefix|] == prefix
  }

  lemma StartsWithConcat(prefix: string, rest: string)
    ensures StartsWith(prefix + rest, prefix)
  {
    assert (prefix + rest)[..|prefix|] == prefix;
  }

  /** `sub` occurs in `s` starting at index `i`. */
  predicate OccursAt(s: string, sub: string, i: int) {
    0 <= i <= |s| - |sub| && s[i..i + |sub|] == sub
  }

  /** `sub in s` for strings: `sub` occurs somewhere in `s` as a contiguous run. */
  predicate Contains(s: string, sub: string)
    ensures Contains(s, sub) <==> exists i :: OccursAt(s, sub, i)
    decreases |s|
  {
    if StartsWith(s, sub) then
      assert OccursAt(s, sub, 0) by { assert s[0..|sub|] == s[..|sub|]; }
      true
    else if |s| == 0 then
      assert forall i :: !OccursAt(s, sub, i);
      false
    else
      var r := Contains(s[1..], sub);
      assert r ==> exists i :: OccursAt(s, sub, i) by {
        if r {
          var j :| OccursAt(s[1..], sub, j);
          assert s[j + 1..j + 1 + |sub|] == s[1..][j..j + |sub|];
          assert OccursAt(s, sub, j + 1);
        }
      }
      assert (exists i :: OccursAt(s, sub, i)) ==> r by {
        if exists i :: OccursAt(s, sub, i) {
          var i :| OccursAt(s, sub, i);
          assert i != 0;
          assert s[1..][i - 1..i - 1 + |sub|] == s[i..i + |sub|];
          assert OccursAt(s[1..], sub, i - 1);
        }
      }
      r
  }

  /** ASCII lower-casing of one character; every other character is unchanged. */
  function LowerChar(c: char): char {
    if 'A' <= c <= 'Z' then (c as int + 32) as char else c
  }

  /** `s.lower()`, restricted to ASCII letters. */
  function Lower(s: string): (r: string)
    ensures |r| == |s|
    ensures forall i :: 0 <= i < |s| ==> r[i] == LowerChar(s[i])
  {
    seq(|s|, i requires 0 <= i < |s| => LowerChar(s[i]))
  }

  /** `s.split("/")[-1]`: the text after the last `/`, or all of `s` when it has none. */
  function LastSegment(s: string): (r: string)
    ensures '/' !in r
    ensures |r| <= |s| && r == s[|s| - |r|..]
    ensures |r| < |s| ==> s[|s| - |r| - 1] == '/'
  {
    if |s| == 0 then ""
    else if s[|s| - 1] == '/' then ""
    else LastSegment(s[..|s| - 1]) + [s[|s| - 1]]
  }

  /** Whatever comes before a `/` has no influence on the last segment. */
  lemma {:induction false} LastSegmentSkipsPrefix(p: string, rest: string)
    requires |p| > 0 && p[|p| - 1] == '/'
    ensures LastSegment(p + rest) == LastSegment(rest)
    decreases |rest|
  {
    if |rest| == 0 {
      assert p + rest == p;
    } else {
      var init := rest[..|rest| - 1];
      assert (p + rest)[..|p + rest| - 1] == p + init;
      assert rest[..|rest| - 1] == init;
      LastSegmentSkipsPrefix(p, init);
    }
  }

  /** A string without `/` is its own last segment. */
  lemma LastSegmentOfSegment(f: string)
    requires '/' !in f
    ensures LastSegment(f) == f
  {
    var r := LastSegment(f);
    assert |r| == |f|;
  }

  /** Appending a `/`-free segment after a `/` makes that segment the last one. */
  lemma LastSegmentAfterSlash(p: string, f: string)
    requires |p| > 0 && p[|p| - 1] == '/'
    requires '/' !in f
    ensures LastSegment(p + f) == f
  {
    LastSegmentSkipsPrefix(p, f);
    LastSegmentOfSegment(f);
  }

  /** `s.rfind(c)`: the index of the last `c` in `s`, or -1. */
  function LastIndexOf(s: string, c: char): (r: int)
    ensures -1 <= r < |s|
    ensures r >= 0 ==> s[r] == c
    ensures forall k :: r < k < |s| ==> s[k] != c
  {
    if |s| == 0 then -1
    else if s[|s| - 1] == c then |s| - 1
    else LastIndexOf(s[..|s| - 1], c)
  }

  /** Any last occurrence (or proof of absence) is the one `LastIndexOf` finds. */
  lemma LastIndexOfIs(s: string, c: char, i: int)
    requires -1 <= i < |s|
    requires i >= 0 ==> s[i] == c
    requires forall k :: i < k < |s| ==> s[k] != c
    ensures LastIndexOf(s, c) == i
  {
  }

  /** Euclidean division by a positive divisor. */
  lemma DivMod(n: nat, t: nat)
    requires t > 0
    ensures n == (n / t) * t + n % t && 0 <= n % t < t
  {
  }

  lemma MulSucc(q: int, t: int)
    ensures (q + 1) * t == q * t + t
  {
  }

  /** No element occurs twice. */
  predicate NoDup<T(==)>(s: seq<T>) {
    forall i, j :: 0 <= i < j < |s| ==> s[i] != s[j]
  }

  /** The elements of a sequence, as a set. */
  function Elements<T>(s: seq<T>): set<T> {
    set x | x in s
  }

  /** A sequence has at least as many positions as it has distinct elements,
      and exactly as many when no element repeats. */
  lemma {:induction false} ElementsCard<T>(s: seq<T>)
    ensures |Elements(s)| <= |s|
    ensures NoDup(s) ==> |Elements(s)| == |s|
  {
    if |s| > 0 {
      var init := s[..|s| - 1];
      ElementsCard(init);
      assert Elements(s) == Elements(init) + {s[|s| - 1]};
      if NoDup(s) {
        assert NoDup(init);
        assert s[|s| - 1] !in Elements(init);
      }
    }
  }

  /** In a sequence without repeats every value occurs at most once. */
  lemma {:induction false} NoDupCount<T>(s: seq<T>, z: T)
    requires NoDup(s)
    ensures multiset(s)[z] <= 1
  {
    if |s| > 0 {
      var init := s[..|s| - 1];
      assert s == init + [s[|s| - 1]];
      assert NoDup(init);
      NoDupCount(init, z);
      if z == s[|s| - 1] {
        assert z !in init;
      }
    }
  }

  /** A rearrangement of a sequence without repeats has no repeats. */
  lemma PermutationKeepsNoDup<T>(a: seq<T>, b: seq<T>)
    requires NoDup(a)
    requires multiset(a) == multiset(b)
    ensures NoDup(b)
  {
    forall i, j | 0 <= i < j < |b| ensures b[i] != b[j] {
      if b[i] == b[j] {
        assert b == b[..j] + b[j..];
        assert b[i] in b[..j];
        assert b[j] in b[j..];
        assert multiset(b)[b[i]] >= 2;
        NoDupCount(a, b[i]);
      }
    }
  }

  /** A subset splits its superset into itself and the rest. */
  lemma SubsetCard<T>(a: set<T>, b: set<T>)
    requires a <= b
    ensures |b| == |a| + |b - a|
  {
    assert b == a + (b - a);
  }

  /** Two permutations of each other have the same members. */
  lemma SameMembers<T>(a: seq<T>, b: seq<T>)
    requires multiset(a) == multiset(b)
    ensures forall x :: x in a <==> x in b
  {
    forall x ensures x in a <==> x in b {
      assert x in a <==> x in multiset(a);
      assert x in b <==> x in multiset(b);
    }
  }
}

/** `Normalize` from the HTTP layer: after a post (or a list of posts) has been
    marshalled to JSON, each post's `"data":` key is renamed to `"url":` for a
    link post and to `"text":` otherwise, by rewriting the byte buffer. */
module Handlers {
  import opened Results

  type Byte = b: int | 0 <= b < 256

  /** `"type":"` */
  const TypeMarker: seq<Byte> := [34, 116, 121, 112, 101, 34, 58, 34]
  /** `"data":` (ToReplace) */
  const DataKey: seq<Byte> := [34, 100, 97, 116, 97, 34, 58]
  /** `"text":` (TextReplace) */
  const TextKey: seq<Byte> := [34, 116, 101, 120, 116, 34, 58]
  /** `"url":` (URLReplace) */
  const UrlKey: seq<Byte> := [34, 117, 114, 108, 34, 58]
  /** The byte 'l', first letter of the post type "link". */
  const LowerL: Byte := 108

  /** `pat` occurs in `s` starting at position `i`. */
  ghost predicate OccursAt(s: seq<Byte>, pat: seq<Byte>, i: int)
  {
    0 <= i && i + |pat| <= |s| && s[i..i + |pat|] == pat
  }

  /** Occurrences in a suffix are occurrences in the whole, shifted. */
  lemma OccursInSuffix(s: seq<Byte>, pat: seq<Byte>, from: nat, i: nat)
    requires from <= |s|
    ensures OccursAt(s[from..], pat, i) <==> OccursAt(s, pat, i + from)
  {
    if 0 <= i && i + |pat| <= |s| - from {
      assert s[from..][i..i + |pat|] == s[i + from..i + from + |pat|];
    }
  }

  /** `bytes.Index`: the first position at which `pat` occurs, or -1. */
  function IndexOf(s: seq<Byte>, pat: seq<Byte>): (k: int)
    ensures -1 <= k <= |s|
    ensures k < 0 <==> forall i :: !OccursAt(s, pat, i)
    ensures 0 <= k ==> OccursAt(s, pat, k)
    ensures 0 <= k ==> forall i :: i < k ==> !OccursAt(s, pat, i)
    decreases |s|
  {
    if |s| < |pat| then
      assert forall i :: !OccursAt(s, pat, i);
      -1
    else if s[..|pat|] == pat then
      assert OccursAt(s, pat, 0);
      0
    else
      var k := IndexOf(s[1..], pat);
      assert forall i :: 0 <= i ==> (OccursAt(s[1..], pat, i) <==> OccursAt(s, pat, i + 1)) by {
        forall i | 0 <= i ensures OccursAt(s[1..], pat, i) <==> OccursAt(s, pat, i + 1) {
          OccursInSuffix(s, pat, 1, i);
        }
      }
      assert forall i :: i <= 0 ==> !OccursAt(s, pat, i);
      if k < 0 then
        assert forall i :: !OccursAt(s, pat, i) by {
          forall i ensures !OccursAt(s, pat, i) {
            if i > 0 {
              assert !OccursAt(s[1..], pat, i - 1);
            }
          }
        }
        -1
      else
        assert forall i :: i < k + 1 ==> !OccursAt(s, pat, i) by {
          forall i | i < k + 1 ensures !OccursAt(s, pat, i) {
            if i > 0 {
              assert !OccursAt(s[1..], pat, i - 1);
            }
          }
        }
        k + 1
  }

  /** `bytes.Replace(s, from, to, 1)`: the first occurrence of `from` in the
      whole buffer becomes `to`; without one the buffer is returned as is. */
  function ReplaceFirst(s: seq<Byte>, from: seq<Byte>, to: seq<Byte>): (r: seq<Byte>)
    ensures IndexOf(s, from) < 0 ==> r == s
    ensures 0 <= IndexOf(s, from) ==>
      var k := IndexOf(s, from);
      && |r| == |s| - |from| + |to|
      && r[..k] == s[..k]
      && r[k..k + |to|] == to
      && r[k + |to|..] == s[k + |from|..]
  {
    var k := IndexOf(s, from);
    if k < 0 then s else s[..k] + to + s[k + |from|..]
  }

  /** The flag after one search: just past the first `"type":"` at or after
      `flag`; when there is none, `bytes.Index` gives -1 and the flag moves
      on by 7. */
  function NextFlag(data: seq<Byte>, flag: nat): (f: int)
    requires flag <= |data|
    ensures flag + |TypeMarker| - 1 <= f
    ensures 0 <= IndexOf(data[flag..], TypeMarker) ==>
      flag + |TypeMarker| <= f <= |data| && OccursAt(data, TypeMarker, f - |TypeMarker|)
  {
    var at := IndexOf(data[flag..], TypeMarker);
    OccursInSuffix(data, TypeMarker, flag, if at < 0 then 0 else at);
    at + |TypeMarker| + flag
  }

  /** One pass of the loop: move the flag, read the byte there (out of range
      is a runtime panic), and rename the first `"data":` accordingly. */
  function Step(data: seq<Byte>, flag: nat): (r: Result<(seq<Byte>, nat)>)
    requires flag <= |data|
    ensures r.Ok? <==> NextFlag(data, flag) < |data|
    ensures r.Err? ==> r.error == ErrIndexOutOfRange
    ensures r.Ok? ==> r.value.1 == NextFlag(data, flag) && r.value.1 <= |r.value.0|
    ensures r.Ok? ==>
      var key := if data[r.value.1] == LowerL then UrlKey else TextKey;
      r.value.0 == ReplaceFirst(data, DataKey, key)
  {
    var f := NextFlag(data, flag);
    if f >= |data| then Err(ErrIndexOutOfRange)
    else
      var key := if data[f] == LowerL then UrlKey else TextKey;
      Ok((ReplaceFirst(data, DataKey, key), f))
  }

  /** What `n` passes of the loop produce from the buffer `data` and the
      flag `flag`: zero passes leave the buffer as it was, and the only way
      a run fails is the out-of-range read. */
  function Run(data: seq<Byte>, flag: nat, n: nat): (r: Result<seq<Byte>>)
    requires flag <= |data|
    ensures n == 0 ==> r == Ok(data)
    ensures r.Err? ==> r.error == ErrIndexOutOfRange
    decreases n
  {
    if n == 0 then Ok(data)
    else
      match Step(data, flag)
      case Err(e) => Err(e)
      case Ok((next, f)) => Run(next, f, n - 1)
  }

  /** A pass renames at most one key: a `"text":` rename keeps the length,
      a `"url":` rename is one byte shorter, and a buffer without `"data":`
      comes back unchanged. */
  lemma StepLength(data: seq<Byte>, flag: nat)
    requires flag <= |data| && Step(data, flag).Ok?
    ensures var r := Step(data, flag).value.0;
      && (IndexOf(data, DataKey) < 0 ==> r == data)
      && (0 <= IndexOf(data, DataKey) && data[NextFlag(data, flag)] == LowerL ==> |r| == |data| - 1)
      && (0 <= IndexOf(data, DataKey) && data[NextFlag(data, flag)] != LowerL ==> |r| == |data|)
  {
  }

  /** A pass does not panic when a `"type":"` with a byte after it lies at or
      after the flag, and then the flag moves past that marker. */
  lemma StepSafe(data: seq<Byte>, flag: nat, j: nat)
    requires flag <= j && j + |TypeMarker| < |data| && OccursAt(data, TypeMarker, j)
    ensures Step(data, flag).Ok?
    ensures flag + |TypeMarker| <= Step(data, flag).value.1 <= j + |TypeMarker|
  {
    OccursInSuffix(data, TypeMarker, flag, j - flag);
    var at := IndexOf(data[flag..], TypeMarker);
    assert 0 <= at <= j - flag;
  }

  /** Over a whole run, a buffer without `"data":` is never changed. */
  lemma {:induction false} RunWithoutDataKey(data: seq<Byte>, flag: nat, n: nat)
    requires flag <= |data| && IndexOf(data, DataKey) < 0
    ensures Run(data, flag, n).Ok? ==> Run(data, flag, n).value == data
    decreases n
  {
    if n > 0 && Step(data, flag).Ok? {
      RunWithoutDataKey(data, Step(data, flag).value.1, n - 1);
    }
  }

  /** Over `n` passes the buffer loses at most `n` bytes and never grows. */
  lemma {:induction false} RunLength(data: seq<Byte>, flag: nat, n: nat)
    requires flag <= |data|
    ensures Run(data, flag, n).Ok? ==> |data| - n <= |Run(data, flag, n).value| <= |data|
    decreases n
  {
    if n > 0 && Step(data, flag).Ok? {
      StepLength(data, flag);
      var next := Step(data, flag).value;
      RunLength(next.0, next.1, n - 1);
    }
  }

  /** The bytes of an occurrence, one by one. */
  lemma OccursAtBytes(s: seq<Byte>, pat: seq<Byte>, i: nat)
    requires OccursAt(s, pat, i)
    ensures forall k :: i <= k < i + |pat| ==> s[k] == pat[k - i]
  {
    forall k | i <= k < i + |pat|
      ensures s[k] == pat[k - i]
    {
      assert s[i..i + |pat|][k - i] == s[k];
    }
  }

  /** A `"type":"` and a `"data":` share at most one byte: the closing quote
      of the marker may open the key, and nothing else overlaps. */
  lemma MarkerAndKey(data: seq<Byte>, j: nat, p: nat)
    requires OccursAt(data, TypeMarker, j) && OccursAt(data, DataKey, p)
    ensures p + |DataKey| <= j || j + |TypeMarker| <= p || p == j + |TypeMarker| - 1
  {
    OccursAtBytes(data, TypeMarker, j);
    OccursAtBytes(data, DataKey, p);
    assert data[j] == 34 && data[j + 1] == 116;
    assert data[p] == 34 && data[p + 1] == 100;
    if p <= j < p + 7 {
      assert false;
    }
    if j < p < j + 7 {
      assert false;
    }
  }

  /** Where the byte at `j` ends up once the `"data":` at `p` (none when
      `p < 0`) is renamed to a key of length `len`. */
  function Moved(j: nat, p: int, len: nat): nat
  {
    if 0 <= p && p + |DataKey| <= j then j - |DataKey| + len else j
  }

  /** A byte of a buffer spliced from three pieces comes from the piece
      its position falls in. */
  lemma SpliceAt(a: seq<Byte>, key: seq<Byte>, b: seq<Byte>, x: nat)
    requires x < |a| + |key| + |b|
    ensures (a + key + b)[x] ==
      if x < |a| then a[x] else if x < |a| + |key| then key[x - |a|] else b[x - |a| - |key|]
  {
  }

  /** Splicing a new key over a `"data":` keeps any `"type":"`, at the
      position `Moved` gives. */
  lemma SpliceKeepsMarker(data: seq<Byte>, key: seq<Byte>, j: nat, p: nat)
    requires key == UrlKey || key == TextKey
    requires OccursAt(data, TypeMarker, j) && OccursAt(data, DataKey, p)
    ensures OccursAt(data[..p] + key + data[p + |DataKey|..], TypeMarker, Moved(j, p, |key|))
  {
    var before, after := data[..p], data[p + |DataKey|..];
    var r := before + key + after;
    var m := Moved(j, p, |key|);
    MarkerAndKey(data, j, p);
    OccursAtBytes(data, TypeMarker, j);
    forall k | 0 <= k < 8
      ensures r[m + k] == TypeMarker[k]
    {
      SpliceAt(before, key, after, m + k);
      if k == 7 && p == j + 7 {
        assert r[m + k] == key[0];
      } else {
        assert r[m + k] == data[j + k];
      }
    }
    assert r[m..m + 8] == TypeMarker;
  }

  /** A rename never destroys a `"type":"`: the marker stays where it was,
      or moves with the bytes after the renamed key. */
  lemma MarkerSurvives(data: seq<Byte>, key: seq<Byte>, j: nat)
    requires key == UrlKey || key == TextKey
    requires OccursAt(data, TypeMarker, j)
    ensures OccursAt(ReplaceFirst(data, DataKey, key), TypeMarker, Moved(j, IndexOf(data, DataKey), |key|))
  {
    var p := IndexOf(data, DataKey);
    if 0 <= p {
      SpliceKeepsMarker(data, key, j, p);
    }
  }

  /** `js` lists `"type":"` positions in order, each at or after `flag`, no
      two overlapping, and the last with a byte after it. */
  ghost predicate MarkersFrom(data: seq<Byte>, flag: nat, js: seq<nat>)
  {
    && (forall i :: 0 <= i < |js| ==> OccursAt(data, TypeMarker, js[i]))
    && (forall i, k :: 0 <= i < k < |js| ==> js[i] + |TypeMarker| <= js[k])
    && (0 < |js| ==> flag <= js[0] && js[|js| - 1] + |TypeMarker| < |data|)
  }

  /** Every position moved as the rename moves it. */
  function MovedAll(js: seq<nat>, p: int, len: nat): (r: seq<nat>)
    ensures |r| == |js|
    ensures forall i :: 0 <= i < |js| ==> r[i] == Moved(js[i], p, len)
  {
    if js == [] then [] else [Moved(js[0], p, len)] + MovedAll(js[1..], p, len)
  }

  /** Two markers in order stay apart through a rename: the later one moves
      back only if the renamed key lies before it, and then either both move
      or the key lies between them. */
  lemma MovedApart(data: seq<Byte>, key: seq<Byte>, a: nat, b: nat)
    requires key == UrlKey || key == TextKey
    requires OccursAt(data, TypeMarker, a) && a + |TypeMarker| <= b
    ensures var p := IndexOf(data, DataKey);
      Moved(a, p, |key|) + |TypeMarker| <= Moved(b, p, |key|)
  {
    var p := IndexOf(data, DataKey);
    if 0 <= p {
      MarkerAndKey(data, a, p);
    }
  }

  /** Markers keep their order and stay apart through a rename. */
  lemma MovedKeepsApart(data: seq<Byte>, key: seq<Byte>, js: seq<nat>)
    requires key == UrlKey || key == TextKey
    requires forall i :: 0 <= i < |js| ==> OccursAt(data, TypeMarker, js[i])
    requires forall i, k :: 0 <= i < k < |js| ==> js[i] + |TypeMarker| <= js[k]
    ensures var r := MovedAll(js, IndexOf(data, DataKey), |key|);
      forall i, k :: 0 <= i < k < |r| ==> r[i] + |TypeMarker| <= r[k]
  {
    var r := MovedAll(js, IndexOf(data, DataKey), |key|);
    forall i, k | 0 <= i < k < |r|
      ensures r[i] + |TypeMarker| <= r[k]
    {
      MovedApart(data, key, js[i], js[k]);
    }
  }

  /** Markers stay markers through a rename, at their moved positions. */
  lemma MovedKeepsMarkers(data: seq<Byte>, key: seq<Byte>, js: seq<nat>)
    requires key == UrlKey || key == TextKey
    requires forall i :: 0 <= i < |js| ==> OccursAt(data, TypeMarker, js[i])
    ensures var r := MovedAll(js, IndexOf(data, DataKey), |key|);
      forall i :: 0 <= i < |r| ==> OccursAt(ReplaceFirst(data, DataKey, key), TypeMarker, r[i])
  {
    var r := MovedAll(js, IndexOf(data, DataKey), |key|);
    forall i | 0 <= i < |r|
      ensures OccursAt(ReplaceFirst(data, DataKey, key), TypeMarker, r[i])
    {
      MarkerSurvives(data, key, js[i]);
    }
  }

  /** The first marker ahead stays at or after the flag: it moves back only
      after a `"url":` rename, which needs an `l` at the flag, and a marker
      starts with a quote. */
  lemma MovedFirst(data: seq<Byte>, f: nat, key: seq<Byte>, j: nat)
    requires f <= j && f < |data| && OccursAt(data, TypeMarker, j)
    requires key == if data[f] == LowerL then UrlKey else TextKey
    ensures f <= Moved(j, IndexOf(data, DataKey), |key|)
  {
    OccursAtBytes(data, TypeMarker, j);
    assert data[j] == 34;
  }

  /** The last marker keeps a byte after it in the renamed buffer. */
  lemma MovedLast(data: seq<Byte>, key: seq<Byte>, j: nat)
    requires key == UrlKey || key == TextKey
    requires OccursAt(data, TypeMarker, j) && j + |TypeMarker| < |data|
    ensures Moved(j, IndexOf(data, DataKey), |key|) + |TypeMarker| < |ReplaceFirst(data, DataKey, key)|
  {
    var p := IndexOf(data, DataKey);
    if 0 <= p {
      MarkerAndKey(data, j, p);
    }
  }

  /** The rename a pass makes, with the key the byte at the flag selects,
      keeps the markers ahead of the flag markers ahead of it. */
  lemma RenameKeepsMarkers(data: seq<Byte>, f: nat, js: seq<nat>)
    requires f < |data| && MarkersFrom(data, f, js)
    ensures var key := if data[f] == LowerL then UrlKey else TextKey;
      MarkersFrom(ReplaceFirst(data, DataKey, key), f, MovedAll(js, IndexOf(data, DataKey), |key|))
  {
    var key := if data[f] == LowerL then UrlKey else TextKey;
    MovedKeepsMarkers(data, key, js);
    MovedKeepsApart(data, key, js);
    if 0 < |js| {
      MovedFirst(data, f, key, js[0]);
      MovedLast(data, key, js[|js| - 1]);
    }
  }

  /** A pass with markers ahead succeeds, and the markers after the one it
      used are still markers ahead of the new flag in the renamed buffer. */
  lemma StepKeepsMarkers(data: seq<Byte>, flag: nat, js: seq<nat>) returns (next: seq<Byte>, f: nat, rest: seq<nat>)
    requires flag <= |data| && 0 < |js| && MarkersFrom(data, flag, js)
    ensures Step(data, flag) == Ok((next, f))
    ensures |rest| == |js| - 1
    ensures f <= |next| && MarkersFrom(next, f, rest)
  {
    StepSafe(data, flag, js[0]);
    next, f := Step(data, flag).value.0, Step(data, flag).value.1;
    var ahead := js[1..];
    assert MarkersFrom(data, f, ahead) by {
      if 0 < |ahead| {
        assert js[0] + |TypeMarker| <= js[1];
      }
    }
    RenameKeepsMarkers(data, f, ahead);
    var key := if data[f] == LowerL then UrlKey else TextKey;
    rest := MovedAll(ahead, IndexOf(data, DataKey), |key|);
  }

  /** A run of `n > 0` passes is its first pass followed by `n - 1` more;
      when the first pass fails, the run fails with the same error. */
  lemma RunUnfold(data: seq<Byte>, flag: nat, n: nat, step: Result<(seq<Byte>, nat)>)
    requires flag <= |data| && 0 < n && step == Step(data, flag)
    ensures step.Err? ==> Run(data, flag, n) == Err(step.error)
    ensures step.Ok? ==> step.value.1 <= |step.value.0|
    ensures step.Ok? ==> Run(data, flag, n) == Run(step.value.0, step.value.1, n - 1)
  {
  }

  /** Safety of the whole loop: a buffer with non-overlapping `"type":"`
      markers `js` at or after the flag, the last followed by a byte, gets
      through up to `|js|` passes without reading past its end. */
  lemma {:induction false} RunSafe(data: seq<Byte>, flag: nat, js: seq<nat>, n: nat)
    requires flag <= |data| && MarkersFrom(data, flag, js) && n <= |js|
    ensures Run(data, flag, n).Ok?
    decreases n, 1
  {
    if 0 < n {
      var next, f, rest := StepKeepsMarkers(data, flag, js);
      RunSafeAfter(data, flag, n, next, f, rest);
    }
  }

  /** The inductive step of `RunSafe`: the first pass succeeded and left
      one marker fewer ahead of its flag. */
  lemma {:induction false} RunSafeAfter(data: seq<Byte>, flag: nat, n: nat, next: seq<Byte>, f: nat, rest: seq<nat>)
    requires flag <= |data| && 0 < n && Step(data, flag) == Ok((next, f))
    requires f <= |next| && MarkersFrom(next, f, rest) && n - 1 <= |rest|
    ensures Run(data, flag, n).Ok?
    decreases n, 0
  {
    RunSafe(next, f, rest, n - 1);
    RunUnfold(data, flag, n, Ok((next, f)));
  }

  /** The buffer and flag after `k` passes counted from the start, or the
      error of the pass that failed: the same loop read forwards. */
  function After(data: seq<Byte>, k: nat): (r: Result<(seq<Byte>, nat)>)
    ensures r.Ok? ==> r.value.1 <= |r.value.0|
    ensures r.Err? ==> r.error == ErrIndexOutOfRange
  {
    if k == 0 then Ok((data, 0))
    else
      match After(data, k - 1)
      case Err(e) => Err(e)
      case Ok((buf, flag)) => Step(buf, flag)
  }

  /** The pass after `k` passes is a step from where they left off. */
  lemma AfterNext(data: seq<Byte>, k: nat, buf: seq<Byte>, flag: nat)
    requires After(data, k) == Ok((buf, flag))
    ensures flag <= |buf| && After(data, k + 1) == Step(buf, flag)
  {
  }

  /** Reading forwards and backwards agree: after `k` successful passes of
      `n`, what is left of the run is the remaining `n - k` passes. */
  lemma {:induction false} AfterThenRun(data: seq<Byte>, k: nat, n: nat)
    requires k <= n && After(data, k).Ok?
    ensures Run(data, 0, n) == Run(After(data, k).value.0, After(data, k).value.1, n - k)
    decreases k
  {
    if k == 0 {
      assert After(data, k) == Ok((data, 0));
    } else {
      var prev := After(data, k - 1);
      var step := Step(prev.value.0, prev.value.1);
      assert After(data, k) == step;
      AfterThenRun(data, k - 1, n);
      RunUnfold(prev.value.0, prev.value.1, n - k + 1, step);
    }
  }

  /** After all `n` passes succeed, the run yields the buffer they left. */
  lemma AfterAllRun(data: seq<Byte>, n: nat)
    requires After(data, n).Ok?
    ensures Run(data, 0, n) == Ok(After(data, n).value.0)
  {
    AfterThenRun(data, n, n);
  }

  /** A run of `n` passes fails once any of its first `n` passes fails. */
  lemma {:induction false} AfterErrRun(data: seq<Byte>, k: nat, n: nat)
    requires k <= n && After(data, k).Err?
    ensures Run(data, 0, n) == Err(After(data, k).error)
    decreases k
  {
    var prev := After(data, k - 1);
    if prev.Err? {
      AfterErrRun(data, k - 1, n);
    } else {
      AfterThenRun(data, k - 1, n);
      RunUnfold(prev.value.0, prev.value.1, n - k + 1, Step(prev.value.0, prev.value.1));
    }
  }

  /** The body of the loop in `Normalize`: find the next `"type":"`, read the
      byte after it, and rename the first `"data":`. */
  method Pass(buf: seq<Byte>, indexFlag: nat) returns (r: Result<(seq<Byte>, nat)>)
    requires indexFlag <= |buf|
    ensures r == Step(buf, indexFlag)
  {
    var at := IndexOf(buf[indexFlag..], TypeMarker);
    var next := at + |TypeMarker| + indexFlag;
    assert next == NextFlag(buf, indexFlag);
    if next >= |buf| {
      return Err(ErrIndexOutOfRange);
    }
    if buf[next] == LowerL {
      return Ok((ReplaceFirst(buf, DataKey, UrlKey), next));
    }
    r := Ok((ReplaceFirst(buf, DataKey, TextKey), next));
  }

  /** The loop of `Normalize`, `n` times: each pass renames the first
      remaining `"data":` after looking at the post type that follows the
      next `"type":"`; a pass that reads past the end stops it with an
      error. */
  method Passes(data: seq<Byte>, n: nat) returns (r: Result<seq<Byte>>)
    ensures r == Run(data, 0, n)
  {
    var buf := data;
    var indexFlag: nat := 0;
    var i := 0;
    while i < n
      invariant i <= n
      invariant After(data, i) == Ok((buf, indexFlag))
    {
      var step := Pass(buf, indexFlag);
      AfterNext(data, i, buf, indexFlag);
      if step.Err? {
        AfterErrRun(data, i + 1, n);
        return Err(step.error);
      }
      buf, indexFlag := step.value.0, step.value.1;
      assert step == Ok((buf, indexFlag));
      i := i + 1;
    }
    AfterAllRun(data, n);
    r := Ok(buf);
  }

  /** `Normalize(data, l)`: the loop runs `l` times, and not at all when
      `l` is zero or negative. */
  method Normalize(data: seq<Byte>, l: int) returns (r: Result<seq<Byte>>)
    ensures r == Run(data, 0, if l <= 0 then 0 else l)
    ensures l <= 0 ==> r == Ok(data)
  {
    r := Passes(data, if l <= 0 then 0 else l);
  }
}

/** The pure specification of the tab history: most-recent-first sequences of
    tab ids, what an activation, a removal and a commit do to them, and how a
    rotation moves the cursor. The tracker in module Background is proved
    against these functions. */
module TabHistory {

  /** A browser-assigned tab identifier, opaque to the extension. */
  type TabId = int

  /** No tab appears twice. */
  predicate NoDup(s: seq<TabId>)
  {
    forall i, j :: 0 <= i < j < |s| ==> s[i] != s[j]
  }

  function Min(a: int, b: int): int
  {
    if a <= b then a else b
  }

  lemma NoDupTail(s: seq<TabId>)
    requires |s| > 0
    ensures NoDup(s) ==> NoDup(s[1..]) && s[0] !in s[1..]
  {
    if !NoDup(s) { return; }
    forall i, j | 0 <= i < j < |s| - 1 ensures s[1..][i] != s[1..][j] {
      assert s[1..][i] == s[i + 1] && s[1..][j] == s[j + 1];
    }
    forall k | 0 <= k < |s| - 1 ensures s[1..][k] != s[0] {
      assert s[1..][k] == s[k + 1];
    }
  }

  lemma NoDupCons(t: TabId, s: seq<TabId>)
    ensures NoDup(s) && t !in s ==> NoDup([t] + s)
  {
    if !NoDup(s) || t in s { return; }
    var r := [t] + s;
    forall i, j | 0 <= i < j < |r| ensures r[i] != r[j] {
      assert r[j] == s[j - 1];
      if i > 0 { assert r[i] == s[i - 1]; }
    }
  }

  lemma NoDupPrefix(s: seq<TabId>, n: nat)
    requires n <= |s|
    ensures NoDup(s) ==> NoDup(s[..n])
  {
    if !NoDup(s) { return; }
    forall i, j | 0 <= i < j < n ensures s[..n][i] != s[..n][j] {
      assert s[..n][i] == s[i] && s[..n][j] == s[j];
    }
  }

  /** `h` with every occurrence of `t` taken out, the rest in their order. */
  function Without(h: seq<TabId>, t: TabId): (r: seq<TabId>)
    ensures forall x :: x in r <==> x in h && x != t
    ensures |r| <= |h|
    ensures t !in h ==> r == h
    ensures NoDup(h) ==> NoDup(r)
    ensures NoDup(h) && t in h ==> |r| == |h| - 1
  {
    if h == [] then []
    else
      var rest := Without(h[1..], t);
      if h[0] == t then
        assert h[1..] + [] == h[1..];
        NoDupTail(h);
        rest
      else
        assert h == [h[0]] + h[1..];
        NoDupTail(h);
        NoDupCons(h[0], rest);
        [h[0]] + rest
  }

  /** Removing a tab that occurs at index i deletes exactly that entry and
      keeps the others in their order. */
  lemma {:induction false} WithoutAt(h: seq<TabId>, i: nat)
    requires NoDup(h) && i < |h|
    ensures Without(h, h[i]) == h[..i] + h[i + 1..]
  {
    NoDupTail(h);
    if i == 0 {
      assert h[i] !in h[1..];
    } else {
      WithoutAt(h[1..], i - 1);
      assert h[0] != h[i];
      assert h[1..][i - 1] == h[i];
      assert h[1..][..i - 1] == h[1..i];
      assert h[1..][i..] == h[i + 1..];
      assert h[..i] == [h[0]] + h[1..i];
    }
  }

  /** Removing a tab that is not among the first k entries leaves those k
      entries where they were. */
  lemma {:induction false} WithoutKeepsPrefix(h: seq<TabId>, t: TabId, k: nat)
    requires k <= |h| && t !in h[..k]
    ensures |Without(h, t)| >= k && Without(h, t)[..k] == h[..k]
  {
    if k > 0 {
      assert h[0] == h[..k][0];
      assert h[1..][..k - 1] == h[1..k];
      assert t !in h[1..][..k - 1] by {
        forall x | x in h[1..k] ensures x in h[..k] {
          var m :| 0 <= m < k - 1 && h[1..k][m] == x;
          assert h[..k][m + 1] == x;
        }
      }
      WithoutKeepsPrefix(h[1..], t, k - 1);
      assert Without(h, t) == [h[0]] + Without(h[1..], t);
      assert h[..k] == [h[0]] + h[1..][..k - 1];
    }
  }

  /** An activation of `t`: move (or insert) it to the front and drop the
      oldest entries beyond `maxSize`. */
  function Recorded(h: seq<TabId>, t: TabId, maxSize: nat): (r: seq<TabId>)
    requires maxSize >= 1
    ensures |r| >= 1 && r[0] == t
    ensures |r| <= maxSize
    ensures forall x :: x in r ==> x == t || x in h
    ensures NoDup(h) ==> NoDup(r)
  {
    var moved := [t] + Without(h, t);
    assert moved[0] == t;
    NoDupCons(t, Without(h, t));
    NoDupPrefix(moved, Min(|moved|, maxSize));
    assert forall x :: x in moved[..Min(|moved|, maxSize)] ==> x in moved;
    moved[..Min(|moved|, maxSize)]
  }

  /** A tab seen for the first time goes in front of the newest entries that
      still fit: with depth 3, activating 1..5 leaves [5, 4, 3]. */
  lemma RecordedFresh(h: seq<TabId>, t: TabId, maxSize: nat)
    requires maxSize >= 1 && t !in h
    ensures Recorded(h, t, maxSize) == [t] + h[..Min(|h|, maxSize - 1)]
  {
    var n := Min(|h|, maxSize - 1);
    assert ([t] + h)[..n + 1] == [t] + h[..n];
  }

  /** Re-activating a tab already in a full-enough history moves it to the
      front and changes nothing else: no tab is ever listed twice. */
  lemma RecordedExisting(h: seq<TabId>, i: nat, maxSize: nat)
    requires NoDup(h) && i < |h| <= maxSize
    ensures Recorded(h, h[i], maxSize) == [h[i]] + h[..i] + h[i + 1..]
  {
    WithoutAt(h, i);
  }

  /** What a genuine (user) activation does: in the middle of a rotation
      (cursor > 0) only the entry being viewed survives, then `t` is recorded. */
  function Activated(h: seq<TabId>, cursor: nat, t: TabId, maxSize: nat): (r: seq<TabId>)
    requires maxSize >= 1 && (cursor == 0 || cursor < |h|)
    ensures |r| >= 1 && r[0] == t && |r| <= maxSize
    ensures NoDup(h) ==> NoDup(r)
    ensures cursor == 0 ==> r == Recorded(h, t, maxSize)
  {
    if cursor == 0 then Recorded(h, t, maxSize) else Recorded([h[cursor]], t, maxSize)
  }

  /** A manual switch mid-rotation clears the forward entries: the result is the
      new tab followed by the tab that was being viewed (unless it is that tab). */
  lemma ActivatedMidRotation(h: seq<TabId>, cursor: nat, t: TabId, maxSize: nat)
    requires maxSize >= 2 && 0 < cursor < |h|
    ensures Activated(h, cursor, t, maxSize) == if t == h[cursor] then [t] else [t, h[cursor]]
  {
    if t != h[cursor] {
      assert Without([h[cursor]], t) == [h[cursor]];
    } else {
      assert Without([h[cursor]], t) == [];
    }
  }

  /** The quiescence commit: the tab at the cursor becomes the most recent. */
  function Committed(h: seq<TabId>, cursor: nat, maxSize: nat): (r: seq<TabId>)
    requires maxSize >= 1 && cursor < |h|
    ensures NoDup(h) ==> NoDup(r)
    ensures 1 <= |r| <= maxSize && r[0] == h[cursor]
  {
    Recorded(h, h[cursor], maxSize)
  }

  /** A commit only reorders: the viewed tab moves to the front, the others
      keep their relative order, and the length is unchanged. */
  lemma CommittedMovesToFront(h: seq<TabId>, cursor: nat, maxSize: nat)
    requires NoDup(h) && cursor < |h| <= maxSize
    ensures Committed(h, cursor, maxSize) == [h[cursor]] + h[..cursor] + h[cursor + 1..]
    ensures |Committed(h, cursor, maxSize)| == |h|
  {
    RecordedExisting(h, cursor, maxSize);
  }

  /** The history built from empty by the activations `acts`, in order, with
      no rotation in between. */
  function Replay(acts: seq<TabId>, maxSize: nat): (r: seq<TabId>)
    requires maxSize >= 1
    ensures NoDup(r) && |r| <= maxSize
    ensures acts != [] ==> r != [] && r[0] == acts[|acts| - 1]
  {
    if acts == [] then [] else Recorded(Replay(acts[..|acts| - 1], maxSize), acts[|acts| - 1], maxSize)
  }

  lemma InDropLast(acts: seq<TabId>, x: TabId)
    requires acts != [] && x != acts[|acts| - 1]
    ensures x in acts <==> x in acts[..|acts| - 1]
  {
    assert acts == acts[..|acts| - 1] + [acts[|acts| - 1]];
  }

  /** Index of the last activation of `x` in `acts`, or -1 when there is none. */
  function LastIndex(acts: seq<TabId>, x: TabId): (k: int)
    ensures -1 <= k < |acts|
    ensures k >= 0 <==> x in acts
    ensures k >= 0 ==> acts[k] == x
  {
    if acts == [] then -1
    else if acts[|acts| - 1] == x then |acts| - 1
    else
      InDropLast(acts, x);
      LastIndex(acts[..|acts| - 1], x)
  }

  /** Every tab listed was activated later than every tab listed after it. */
  ghost predicate MostRecentFirst(r: seq<TabId>, acts: seq<TabId>)
  {
    forall i, j :: 0 <= i < j < |r| ==> LastIndex(acts, r[i]) > LastIndex(acts, r[j])
  }

  /** Removing a tab keeps the remaining tabs in recency order. */
  lemma {:induction false} WithoutKeepsOrder(p: seq<TabId>, t: TabId, acts: seq<TabId>)
    requires MostRecentFirst(p, acts)
    ensures MostRecentFirst(Without(p, t), acts)
  {
    if p != [] {
      var q := p[1..];
      assert MostRecentFirst(q, acts) by {
        forall i, j | 0 <= i < j < |q| ensures LastIndex(acts, q[i]) > LastIndex(acts, q[j]) {
          assert q[i] == p[i + 1] && q[j] == p[j + 1];
        }
      }
      WithoutKeepsOrder(q, t, acts);
      var w := Without(q, t);
      if p[0] != t {
        var r := [p[0]] + w;
        assert Without(p, t) == r;
        forall i, j | 0 <= i < j < |r| ensures LastIndex(acts, r[i]) > LastIndex(acts, r[j]) {
          assert r[j] == w[j - 1];
          if i == 0 {
            assert w[j - 1] in q;
            var m :| 0 <= m < |q| && q[m] == w[j - 1];
            assert p[m + 1] == r[j];
          } else {
            assert r[i] == w[i - 1];
          }
        }
      }
    }
  }

  lemma MostRecentFirstPrefix(r: seq<TabId>, k: nat, acts: seq<TabId>)
    requires MostRecentFirst(r, acts) && k <= |r|
    ensures MostRecentFirst(r[..k], acts)
  {
    forall i, j | 0 <= i < j < k ensures LastIndex(acts, r[..k][i]) > LastIndex(acts, r[..k][j]) {
      assert r[..k][i] == r[i] && r[..k][j] == r[j];
    }
  }

  lemma MostRecentFirstCons(t: TabId, w: seq<TabId>, acts: seq<TabId>)
    requires MostRecentFirst(w, acts)
    requires forall x :: x in w ==> LastIndex(acts, x) < LastIndex(acts, t)
    ensures MostRecentFirst([t] + w, acts)
  {
    var r := [t] + w;
    forall i, j | 0 <= i < j < |r| ensures LastIndex(acts, r[i]) > LastIndex(acts, r[j]) {
      assert r[j] == w[j - 1];
      if i > 0 { assert r[i] == w[i - 1]; }
    }
  }

  /** Appending an activation of `t` moves nobody else's last activation and
      keeps the order of the tabs other than `t`. */
  lemma MostRecentFirstSnoc(w: seq<TabId>, pre: seq<TabId>, t: TabId)
    requires MostRecentFirst(w, pre) && t !in w
    ensures MostRecentFirst(w, pre + [t])
    ensures forall x :: x in w ==> LastIndex(pre + [t], x) < LastIndex(pre + [t], t)
  {
    var acts := pre + [t];
    assert acts[..|acts| - 1] == pre;
    forall x | x != t ensures LastIndex(acts, x) == LastIndex(pre, x) {
    }
    forall i, j | 0 <= i < j < |w| ensures LastIndex(acts, w[i]) > LastIndex(acts, w[j]) {
      assert w[i] in w && w[j] in w;
    }
  }

  /** For every sequence of activations the history lists each tab at most
      once, only tabs that were activated, most recently activated first. */
  lemma {:induction false} ReplayMostRecentFirst(acts: seq<TabId>, maxSize: nat)
    requires maxSize >= 1
    ensures MostRecentFirst(Replay(acts, maxSize), acts)
    ensures forall x :: x in Replay(acts, maxSize) ==> x in acts
  {
    if acts != [] {
      var n := |acts|;
      var pre, t := acts[..n - 1], acts[n - 1];
      assert acts == pre + [t];
      ReplayMostRecentFirst(pre, maxSize);
      var p := Replay(pre, maxSize);
      WithoutKeepsOrder(p, t, pre);
      var w := Without(p, t);
      MostRecentFirstSnoc(w, pre, t);
      MostRecentFirstCons(t, w, acts);
      var moved := [t] + w;
      MostRecentFirstPrefix(moved, Min(|moved|, maxSize), acts);
      assert Replay(acts, maxSize) == moved[..Min(|moved|, maxSize)];
      forall x | x in Replay(acts, maxSize) ensures x in acts {
        assert x in moved;
        if x != t {
          assert x in p && x in pre;
          var m :| 0 <= m < |pre| && pre[m] == x;
          assert acts[m] == x;
        }
      }
    }
  }

  /** A trailing activation of `t` is the last activation of `t` and leaves
      every other tab's last activation where it was. */
  lemma LastIndexSnoc(pre: seq<TabId>, t: TabId, x: TabId)
    ensures LastIndex(pre + [t], t) == |pre|
    ensures x != t ==> LastIndex(pre + [t], x) == LastIndex(pre, x)
  {
    assert (pre + [t])[..|pre|] == pre;
  }

  /** The converse of ReplayMostRecentFirst: an activated tab is missing from
      the history only when the history is full and every tab listed was
      activated more recently, so the oldest tabs are the ones dropped. */
  lemma {:induction false} ReplayKeepsRecent(acts: seq<TabId>, maxSize: nat, x: TabId)
    requires maxSize >= 1 && x in acts && x !in Replay(acts, maxSize)
    ensures |Replay(acts, maxSize)| == maxSize
    ensures forall y :: y in Replay(acts, maxSize) ==> LastIndex(acts, y) > LastIndex(acts, x)
  {
    var n := |acts|;
    var pre, t := acts[..n - 1], acts[n - 1];
    assert acts == pre + [t];
    var p := Replay(pre, maxSize);
    var w := Without(p, t);
    var moved := [t] + w;
    var r := Replay(acts, maxSize);
    var k := Min(|moved|, maxSize);
    assert r == moved[..k];
    assert x != t by { assert r[0] == t; }
    InDropLast(acts, x);
    LastIndexSnoc(pre, t, x);
    if x !in p {
      ReplayKeepsRecent(pre, maxSize, x);
      assert |w| >= |p| - 1;
      forall y | y in r ensures LastIndex(acts, y) > LastIndex(acts, x) {
        assert y in moved;
        LastIndexSnoc(pre, t, y);
        if y != t {
          assert y in p;
        }
      }
    } else {
      ReplayMostRecentFirst(pre, maxSize);
      WithoutKeepsOrder(p, t, pre);
      MostRecentFirstSnoc(w, pre, t);
      MostRecentFirstCons(t, w, acts);
      assert x in moved;
      var j :| 0 <= j < |moved| && moved[j] == x;
      forall i | 0 <= i < k ensures moved[i] != x {
        assert moved[i] == r[i] && r[i] in r;
      }
      assert j >= k;
      forall y | y in r ensures LastIndex(acts, y) > LastIndex(acts, x) {
        var i :| 0 <= i < |r| && r[i] == y;
        assert moved[i] == y && i < j;
      }
    }
  }

  /** Forward rotation: the next older entry, wrapping to the newest. */
  function Forward(cursor: nat, n: nat): (r: nat)
    requires cursor < n
    ensures r < n
    ensures r == if cursor + 1 == n then 0 else cursor + 1
  {
    (cursor + 1) % n
  }

  /** Reverse rotation: the next newer entry, wrapping to the oldest. */
  function Reverse(cursor: nat, n: nat): (r: nat)
    requires cursor < n
    ensures r < n
    ensures r == if cursor == 0 then n - 1 else cursor - 1
  {
    (cursor - 1 + n) % n
  }

  /** A reverse rotation undoes a forward one, and the other way round. */
  lemma ReverseUndoesForward(cursor: nat, n: nat)
    requires cursor < n
    ensures Reverse(Forward(cursor, n), n) == cursor
    ensures Forward(Reverse(cursor, n), n) == cursor
  {
  }

  /** The cursor after k forward rotations. */
  function ForwardTimes(cursor: nat, n: nat, k: nat): (r: nat)
    requires cursor < n
    ensures r < n
  {
    if k == 0 then cursor else Forward(ForwardTimes(cursor, n, k - 1), n)
  }

  /** The cursor after k reverse rotations. */
  function ReverseTimes(cursor: nat, n: nat, k: nat): (r: nat)
    requires cursor < n
    ensures r < n
  {
    if k == 0 then cursor else Reverse(ReverseTimes(cursor, n, k - 1), n)
  }

  /** Up to a full cycle, k forward rotations move the cursor k entries on,
      wrapping past the oldest entry to the newest. */
  lemma {:induction false} ForwardTimesIndex(cursor: nat, n: nat, k: nat)
    requires cursor < n && k <= n
    ensures ForwardTimes(cursor, n, k) == if cursor + k < n then cursor + k else cursor + k - n
  {
    if k > 0 {
      ForwardTimesIndex(cursor, n, k - 1);
    }
  }

  /** Up to a full cycle, k reverse rotations move the cursor k entries back,
      wrapping past the newest entry to the oldest. */
  lemma {:induction false} ReverseTimesIndex(cursor: nat, n: nat, k: nat)
    requires cursor < n && k <= n
    ensures ReverseTimes(cursor, n, k) == if k <= cursor then cursor - k else cursor + n - k
  {
    if k > 0 {
      ReverseTimesIndex(cursor, n, k - 1);
    }
  }

  /** Rotating |history| times in either direction comes back to where it began. */
  lemma FullCycle(cursor: nat, n: nat)
    requires cursor < n
    ensures ForwardTimes(cursor, n, n) == cursor
    ensures ReverseTimes(cursor, n, n) == cursor
  {
    ForwardTimesIndex(cursor, n, n);
    ReverseTimesIndex(cursor, n, n);
  }
}

/** The wallet list of WalletsContent: an ordered map from wallets to items and
    a view list of the same items, with the tokens of a wallet in one block
    behind it. */
module WalletBlocks {
  import opened Collections
  import opened Wrappers

  /** The parent of a token is always a TonWallet, never another token. Tokens
      are main wallets exactly when they have a parent; some other wallets are
      only watched. */
  datatype Wallet = Ton(id: nat) | Other(id: nat, isMain: bool) | Token(id: nat, parent: Option<nat>)

  predicate IsMain(w: Wallet) {
    match w
    case Ton(_) => true
    case Other(_, isMain) => isMain
    case Token(_, parent) => parent.Some?
  }

  predicate IsTokenOf(w: Wallet, p: nat) {
    w.Token? && w.parent == Some(p)
  }

  function InsertAt<T>(s: seq<T>, i: nat, x: T): seq<T>
    requires i <= |s|
  {
    s[..i] + [x] + s[i..]
  }

  function RemoveAt<T>(s: seq<T>, i: nat): seq<T>
    requires i < |s|
  {
    s[..i] + s[i + 1..]
  }

  /** The end of the run of p's tokens that starts at i. */
  function BlockEnd(ws: seq<Wallet>, i: nat, p: nat): (e: nat)
    requires i <= |ws|
    ensures i <= e <= |ws|
    ensures forall k :: i <= k < e ==> IsTokenOf(ws[k], p)
    ensures e < |ws| ==> !IsTokenOf(ws[e], p)
    decreases |ws| - i
  {
    if i < |ws| && IsTokenOf(ws[i], p) then BlockEnd(ws, i + 1, p) else i
  }

  /** t lies in the unbroken run of its parent's tokens right behind the parent. */
  ghost predicate InBlock(ws: seq<Wallet>, t: Wallet) {
    t.Token? && t.parent.Some? &&
    exists i, j :: 0 <= i < j < |ws| && BlockAt(ws, t, i, j)
  }

  ghost predicate BlockAt(ws: seq<Wallet>, t: Wallet, i: nat, j: nat)
    requires t.Token? && t.parent.Some? && i < j < |ws|
  {
    ws[i] == Ton(t.parent.value) && ws[j] == t && forall k :: i < k <= j ==> ws[k].Token? && ws[k].parent == t.parent
  }

  /** Inserting x behind m leaves t in its block: in the middle of the list, x
      only ever goes behind its own parent or one of that parent's tokens. */
  lemma InsertKeepsBlock(ws: seq<Wallet>, t: Wallet, m: nat, x: Wallet)
    requires InBlock(ws, t) && m <= |ws| && (m == 0 ==> ws == [])
    requires m < |ws| ==>
      x.Token? && x.parent.Some? && (ws[m - 1] == Ton(x.parent.value) || IsTokenOf(ws[m - 1], x.parent.value))
    ensures InBlock(InsertAt(ws, m, x), t)
  {
    var i, j :| 0 <= i < j < |ws| && BlockAt(ws, t, i, j);
    var ws' := InsertAt(ws, m, x);
    var i' := if m <= i then i + 1 else i;
    var j' := if m <= j then j + 1 else j;
    forall k | i' < k <= j' ensures IsTokenOf(ws'[k], t.parent.value) {
      if k != m {
        assert ws'[k] == ws[if k > m then k - 1 else k];
      } else {
        assert IsTokenOf(ws[m - 1], t.parent.value) || m - 1 == i;
      }
    }
    assert BlockAt(ws', t, i', j');
  }

  lemma RemoveKeepsBlock(ws: seq<Wallet>, t: Wallet, m: nat)
    requires InBlock(ws, t) && m < |ws|
    requires ws[m] != t && ws[m] != Ton(t.parent.value)
    ensures InBlock(RemoveAt(ws, m), t)
  {
    var i, j :| 0 <= i < j < |ws| && BlockAt(ws, t, i, j);
    var ws' := RemoveAt(ws, m);
    var i' := if m < i then i - 1 else i;
    var j' := if m < j then j - 1 else j;
    forall k | i' < k <= j' ensures IsTokenOf(ws'[k], t.parent.value) {
      assert ws'[k] == ws[if k >= m then k + 1 else k];
    }
    assert ws'[i'] == ws[i] && ws'[j'] == ws[j];
    assert BlockAt(ws', t, i', j');
  }

  lemma InsertedInBlock(ws: seq<Wallet>, i: nat, x: Wallet)
    requires i < |ws| && x.Token? && x.parent.Some? && ws[i] == Ton(x.parent.value)
    ensures InBlock(InsertAt(ws, BlockEnd(ws, i + 1, x.parent.value), x), x)
  {
    var e := BlockEnd(ws, i + 1, x.parent.value);
    var ws' := InsertAt(ws, e, x);
    assert forall k :: 0 <= k < e ==> ws'[k] == ws[k];
    assert ws'[e] == x;
    assert BlockAt(ws', x, i, e);
  }

  type Component = nat

  /** Whoever is listed before and after keeps its component. */
  ghost predicate SameComponents(ws: seq<Wallet>, cs: seq<Component>, ws': seq<Wallet>, cs': seq<Component>)
    requires |ws| == |cs| && |ws'| == |cs'|
  {
    forall j, k :: 0 <= j < |ws| && 0 <= k < |ws'| && ws'[k] == ws[j] ==> cs'[k] == cs[j]
  }

  /** The component of w, wherever it is listed, is c. */
  ghost predicate HasComponent(ws: seq<Wallet>, cs: seq<Component>, w: Wallet, c: Component)
    requires |ws| == |cs|
  {
    w in ws && forall k :: 0 <= k < |ws| && ws[k] == w ==> cs[k] == c
  }

  lemma InsertKeepsComponents(ws: seq<Wallet>, cs: seq<Component>, i: nat, w: Wallet, c: Component)
    requires |ws| == |cs| && i <= |ws| && Distinct(ws) && w !in ws
    ensures SameComponents(ws, cs, InsertAt(ws, i, w), InsertAt(cs, i, c))
    ensures HasComponent(InsertAt(ws, i, w), InsertAt(cs, i, c), w, c)
  {
    var ws', cs' := InsertAt(ws, i, w), InsertAt(cs, i, c);
    assert ws'[i] == w && cs'[i] == c;
    forall k | 0 <= k < |ws'| && k != i
      ensures ws'[k] == ws[if k < i then k else k - 1] && cs'[k] == cs[if k < i then k else k - 1]
    {
    }
  }

  lemma RemoveKeepsComponents(ws: seq<Wallet>, cs: seq<Component>, i: nat)
    requires |ws| == |cs| && i < |ws| && Distinct(ws)
    ensures SameComponents(ws, cs, RemoveAt(ws, i), RemoveAt(cs, i))
  {
    var ws', cs' := RemoveAt(ws, i), RemoveAt(cs, i);
    forall k | 0 <= k < |ws'|
      ensures ws'[k] == ws[if k < i then k else k + 1] && cs'[k] == cs[if k < i then k else k + 1]
    {
    }
  }

  class WalletsContent {
    /** walletsItems: keys and items, in order. */
    var wallets: seq<Wallet>
    var items: seq<Component>
    /** The components of anyView, in order. */
    var view: seq<Component>
    var nextComponent: nat
    /** Tokens inserted while their parent was present, neither removed since. */
    ghost var tracked: set<Wallet>

    ghost predicate Valid()
      reads this
    {
      && |items| == |wallets| && view == items
      && Distinct(wallets) && Distinct(items)
      && (forall c :: c in items ==> c < nextComponent)
      && (forall t :: t in tracked ==> InBlock(wallets, t))
    }

    constructor ()
      ensures Valid() && wallets == [] && tracked == {}
    {
      wallets, items, view, nextComponent, tracked := [], [], [], 0, {};
    }

    method IndexOf(w: Wallet) returns (i: int)
      ensures -1 <= i < |wallets|
      ensures i >= 0 ==> wallets[i] == w
      ensures i == -1 <==> w !in wallets
    {
      i := 0;
      while i < |wallets|
        invariant 0 <= i <= |wallets| && w !in wallets[..i]
      {
        if wallets[i] == w {
          return;
        }
        i := i + 1;
      }
      return -1;
    }

    /** Where the scan of CreateWalletItem ends up. */
    method EndOfBlock(start: nat, p: nat) returns (index: nat)
      requires start <= |wallets|
      ensures index == BlockEnd(wallets, start, p)
    {
      index := start;
      while index < |wallets|
        invariant start <= index <= |wallets|
        invariant BlockEnd(wallets, start, p) == BlockEnd(wallets, index, p)
      {
        if !IsTokenOf(wallets[index], p) {
          break;
        }
        index := index + 1;
      }
    }

    method InsertItem(w: Wallet, index: nat)
      requires Valid() && w !in wallets && index <= |wallets|
      requires forall t :: t in tracked ==> InBlock(InsertAt(wallets, index, w), t)
      modifies this
      ensures Valid() && tracked == old(tracked)
      ensures wallets == InsertAt(old(wallets), index, w)
      ensures SameComponents(old(wallets), old(items), wallets, items)
      ensures HasComponent(wallets, items, w, old(nextComponent)) && nextComponent == old(nextComponent) + 1
    {
      var item := nextComponent;
      nextComponent := nextComponent + 1;
      InsertKeepsComponents(wallets, items, index, w, item);
      InsertDistinct(wallets, index, w);
      InsertDistinct(items, index, item);
      wallets := InsertAt(wallets, index, w);
      items := InsertAt(items, index, item);
      view := InsertAt(view, index, item);
    }

    method CreateWalletItem(w: Wallet)
      requires Valid()
      modifies this
      ensures Valid()
      ensures w in old(wallets) ==> wallets == old(wallets) && items == old(items) && tracked == old(tracked)
      ensures SameComponents(old(wallets), old(items), wallets, items)
      ensures w !in old(wallets) ==> HasComponent(wallets, items, w, old(nextComponent))
      ensures w !in old(wallets) && Joins(old(wallets), w) ==>
                tracked == old(tracked) + {w} &&
                exists i :: 0 <= i < |old(wallets)| && old(wallets)[i] == Ton(w.parent.value)
                  && wallets == InsertAt(old(wallets), BlockEnd(old(wallets), i + 1, w.parent.value), w)
      ensures w !in old(wallets) && !Joins(old(wallets), w) ==>
                wallets == old(wallets) + [w] && tracked == old(tracked)
    {
      hide InBlock;
      var at := IndexOf(w);
      if at == -1 {
        if w.Token? && w.parent.Some? {
          var parent := IndexOf(Ton(w.parent.value));
          if parent >= 0 {
            var index := EndOfBlock(parent + 1, w.parent.value);
            forall t | t in tracked ensures InBlock(InsertAt(wallets, index, w), t) {
              InsertKeepsBlock(wallets, t, index, w);
            }
            InsertedInBlock(wallets, parent, w);
            InsertItem(w, index);
            tracked := tracked + {w};
            return;
          }
        }
        forall t | t in tracked ensures InBlock(InsertAt(wallets, |wallets|, w), t) {
          InsertKeepsBlock(wallets, t, |wallets|, w);
        }
        InsertItem(w, |wallets|);
        assert wallets == old(wallets) + [w];
      }
    }

    method WalletsAdded(w: Wallet)
      requires Valid()
      modifies this
      ensures Valid()
      ensures (w.Token? && w.parent.None?) || (w.Other? && !w.isMain) ==>
                wallets == old(wallets) && items == old(items) && tracked == old(tracked)
      ensures w.Ton? || (w.Token? && w.parent.Some?) || (w.Other? && w.isMain) ==> w in wallets
      ensures SameComponents(old(wallets), old(items), wallets, items)
      ensures w in wallets && w !in old(wallets) ==> HasComponent(wallets, items, w, old(nextComponent))
      ensures w !in old(wallets) && w.Token? && w.parent.Some? && Ton(w.parent.value) in old(wallets) ==> w in tracked
      ensures w !in old(wallets) && w in wallets && !(w.Token? && w.parent.Some? && Ton(w.parent.value) in old(wallets)) ==>
                wallets == old(wallets) + [w]
      ensures old(tracked) <= tracked
    {
      if IsMain(w) {
        CreateWalletItem(w);
        assert w !in old(wallets) ==> wallets[|wallets| - 1] == w || w in tracked;
      }
    }

    method WalletsRemoved(w: Wallet)
      requires Valid()
      modifies this
      ensures Valid()
      ensures !IsMain(w) || w !in old(wallets) ==>
                wallets == old(wallets) && items == old(items) && tracked == old(tracked)
      ensures SameComponents(old(wallets), old(items), wallets, items)
      ensures IsMain(w) && w in old(wallets) ==> w !in wallets && |wallets| == |old(wallets)| - 1
      ensures IsMain(w) && w in old(wallets) ==>
                && (exists i :: 0 <= i < |old(wallets)| && old(wallets)[i] == w && wallets == RemoveAt(old(wallets), i))
                && tracked == set t | t in old(tracked) && t != w && !(w.Ton? && IsTokenOf(t, w.id))
    {
      if IsMain(w) {
        var i := IndexOf(w);
        if i >= 0 {
          tracked := set t | t in tracked && t != w && !(w.Ton? && IsTokenOf(t, w.id));
          forall t | t in tracked ensures InBlock(RemoveAt(wallets, i), t) {
            RemoveKeepsBlock(wallets, t, i);
          }
          RemoveDistinct(wallets, i);
          RemoveDistinct(items, i);
          RemoveKeepsComponents(wallets, items, i);
          var component := items[i];
          wallets, items := RemoveAt(wallets, i), RemoveAt(items, i);
          var at := PositionInView(component);
          assert view[i] == component;
          assert at == i;
          view := RemoveAt(view, at);
        }
      }
    }

    method PositionInView(c: Component) returns (at: nat)
      requires c in view
      ensures at < |view| && view[at] == c
    {
      at := 0;
      while view[at] != c
        invariant at < |view| && c in view[at..]
        decreases |view| - at
      {
        assert view[at..] == [view[at]] + view[at + 1..];
        at := at + 1;
      }
    }
  }

  /** Whether a new wallet goes into its parent's block. */
  predicate Joins(ws: seq<Wallet>, w: Wallet) {
    w.Token? && w.parent.Some? && Ton(w.parent.value) in ws
  }

  lemma InsertDistinct<T>(s: seq<T>, i: nat, x: T)
    requires i <= |s| && Distinct(s) && x !in s
    ensures Distinct(InsertAt(s, i, x))
    ensures forall y :: y in InsertAt(s, i, x) ==> y in s || y == x
  {
  }

  lemma RemoveDistinct<T>(s: seq<T>, i: nat)
    requires i < |s| && Distinct(s)
    ensures Distinct(RemoveAt(s, i))
    ensures forall y :: y in RemoveAt(s, i) ==> y in s
  {
  }
}

/**
 * The rotation policy inside `send_photo_to_user`: which image a user gets next and what their
 * history becomes, and what repeated successful deliveries add up to.
 */
module Rotation {
  import opened Common

  /** Index of the first catalog image not in the history; |catalog| when there is none. */
  function FirstUnseen(catalog: seq<string>, history: seq<string>): (i: nat)
    ensures i <= |catalog|
  {
    if catalog == [] || catalog[0] !in history then 0
    else 1 + FirstUnseen(catalog[1..], history)
  }

  /** Every image before the first unseen one is in the history, and that one is not. */
  lemma {:induction false} FirstUnseenSpec(catalog: seq<string>, history: seq<string>)
    ensures forall j :: 0 <= j < FirstUnseen(catalog, history) ==> catalog[j] in history
    ensures FirstUnseen(catalog, history) < |catalog| ==> catalog[FirstUnseen(catalog, history)] !in history
  {
    if catalog != [] && catalog[0] in history {
      FirstUnseenSpec(catalog[1..], history);
      forall j | 0 <= j < FirstUnseen(catalog, history) ensures catalog[j] in history {
        if j > 0 {
          assert catalog[j] == catalog[1..][j - 1];
        }
      }
    }
  }

  /** The `available` list: the catalog images not in the history, in catalog order. */
  function Unseen(catalog: seq<string>, history: seq<string>): (r: seq<string>)
    ensures r == [] <==> FirstUnseen(catalog, history) == |catalog|
    ensures r != [] ==> r[0] == catalog[FirstUnseen(catalog, history)]
  {
    if catalog == [] then []
    else
      assert catalog == [catalog[0]] + catalog[1..];
      if catalog[0] in history then Unseen(catalog[1..], history)
      else [catalog[0]] + Unseen(catalog[1..], history)
  }

  /** `available` holds exactly the catalog images the history does not hold. */
  lemma {:induction false} UnseenSpec(catalog: seq<string>, history: seq<string>)
    ensures forall x :: x in Unseen(catalog, history) <==> x in catalog && x !in history
  {
    if catalog != [] {
      UnseenSpec(catalog[1..], history);
      assert catalog == [catalog[0]] + catalog[1..];
    }
  }

  /** The image to send and the history to store if the send succeeds. */
  datatype Selection = Selection(photo: string, history: seq<string>)

  /**
   * The rotation policy: the first catalog image not yet received, appended to the history; once
   * every image has been received, the first image again, with the history started afresh.
   * An empty catalog gives nothing to send.
   */
  function SelectNext(catalog: seq<string>, history: seq<string>): Option<Selection>
  {
    if catalog == [] then None
    else
      var i := FirstUnseen(catalog, history);
      if i < |catalog| then Some(Selection(catalog[i], history + [catalog[i]]))
      else Some(Selection(catalog[0], [catalog[0]]))
  }

  /**
   * What the policy promises: something is chosen exactly when the catalog is non-empty; it is a
   * catalog image; it is an image not yet received whenever there is one, and the first unseen
   * one at that; it is appended to the history, which restarts only when every image has been
   * received, and then with the first image.
   */
  lemma SelectNextSpec(catalog: seq<string>, history: seq<string>)
    ensures SelectNext(catalog, history).None? <==> catalog == []
    ensures SelectNext(catalog, history).Some? ==> SelectNext(catalog, history).value.photo in catalog
    ensures (exists x :: x in catalog && x !in history) ==>
      SelectNext(catalog, history).Some? && SelectNext(catalog, history).value.photo !in history
    ensures FirstUnseen(catalog, history) < |catalog| ==>
      SelectNext(catalog, history) == Some(Selection(catalog[FirstUnseen(catalog, history)], history + [catalog[FirstUnseen(catalog, history)]]))
    ensures var s := SelectNext(catalog, history);
      s.Some? ==> s.value.history == (if s.value.photo in history then [] else history) + [s.value.photo]
    ensures var s := SelectNext(catalog, history);
      s.Some? && s.value.photo in history ==> s.value.photo == catalog[0] && forall x :: x in catalog ==> x in history
  {
    FirstUnseenSpec(catalog, history);
  }

  /**
   * When image `i` is the first catalog image the user has not received, it is the one chosen, and
   * the history to store is the old one with it appended.
   */
  lemma FirstUnseenIsChosen(catalog: seq<string>, history: seq<string>, i: nat)
    requires i < |catalog| && catalog[i] !in history
    requires forall j :: 0 <= j < i ==> catalog[j] in history
    ensures SelectNext(catalog, history) == Some(Selection(catalog[i], history + [catalog[i]]))
  {
    FirstUnseenSpec(catalog, history);
  }

  /** When the user has received every catalog image, the first image is chosen and the history restarts with it. */
  lemma ResetWhenAllSeen(catalog: seq<string>, history: seq<string>)
    requires catalog != [] && forall x :: x in catalog ==> x in history
    ensures SelectNext(catalog, history) == Some(Selection(catalog[0], [catalog[0]]))
  {
    FirstUnseenSpec(catalog, history);
  }

  /** A new user of the catalog a, b, c gets a first, and then their history is [a]. */
  lemma NewUserGetsFirstImage()
    ensures SelectNext(["a.jpg", "b.jpg", "c.jpg"], []) == Some(Selection("a.jpg", ["a.jpg"]))
  {
    FirstUnseenIsChosen(["a.jpg", "b.jpg", "c.jpg"], [], 0);
    assert [] + ["a.jpg"] == ["a.jpg"];
  }

  /** A user who has received a, b and c gets a again, and their history restarts as [a]. */
  lemma ExhaustedHistoryRestarts()
    ensures SelectNext(["a.jpg", "b.jpg", "c.jpg"], ["a.jpg", "b.jpg", "c.jpg"]) == Some(Selection("a.jpg", ["a.jpg"]))
  {
    ResetWhenAllSeen(["a.jpg", "b.jpg", "c.jpg"], ["a.jpg", "b.jpg", "c.jpg"]);
  }

  /** The chosen image is a catalog image, and a history made of catalog images stays so. */
  lemma SelectionWithinCatalog(catalog: seq<string>, history: seq<string>)
    requires SelectNext(catalog, history).Some?
    ensures SelectNext(catalog, history).value.photo in catalog
    ensures (forall x :: x in history ==> x in catalog) ==>
      forall x :: x in SelectNext(catalog, history).value.history ==> x in catalog
  {
    SelectNextSpec(catalog, history);
  }

  /** The image appended is never one already in the history it is appended to. */
  lemma SelectionKeepsHistoryDistinct(catalog: seq<string>, history: seq<string>)
    requires SelectNext(catalog, history).Some? && NoDuplicates(history)
    ensures NoDuplicates(SelectNext(catalog, history).value.history)
  {
    SelectNextSpec(catalog, history);
  }

  /** The photos sent by `k` scheduled deliveries in a row whose sends all succeed, and the history after them. */
  datatype Run = Run(photos: seq<string>, history: seq<string>)

  function Deliveries(catalog: seq<string>, history: seq<string>, k: nat): Run
    decreases k
  {
    if k == 0 then Run([], history)
    else
      match SelectNext(catalog, history)
      case None => Run([], history)
      case Some(sel) =>
        var rest := Deliveries(catalog, sel.history, k - 1);
        Run([sel.photo] + rest.photos, rest.history)
  }

  /** With distinct images, after the first `j` of them the next unseen one is image `j`. */
  lemma {:induction false} FirstUnseenAfterPrefix(catalog: seq<string>, j: nat)
    requires NoDuplicates(catalog) && j <= |catalog|
    ensures FirstUnseen(catalog, catalog[..j]) == j
  {
    FirstUnseenSpec(catalog, catalog[..j]);
    if j < |catalog| {
      assert catalog[j] !in catalog[..j] by {
        forall m | 0 <= m < j ensures catalog[..j][m] != catalog[j] {
          assert catalog[..j][m] == catalog[m];
        }
      }
    }
  }

  /** Within one cycle, deliveries hand out the catalog in order and the history grows along it. */
  lemma {:induction false} DeliveriesWithinCycle(catalog: seq<string>, j: nat, k: nat)
    requires NoDuplicates(catalog) && j + k <= |catalog|
    ensures Deliveries(catalog, catalog[..j], k) == Run(catalog[j..j + k], catalog[..j + k])
    decreases k
  {
    if k == 0 {
      assert catalog[j..j + k] == [];
    } else {
      DeliveryAfterPrefix(catalog, j, k);
      DeliveriesWithinCycle(catalog, j + 1, k - 1);
      assert [catalog[j]] + catalog[j + 1..j + k] == catalog[j..j + k];
    }
  }

  /**
   * Once every image has been seen the rotation starts again exactly as for a new user: the reset
   * chooses what an empty history chooses, and so do all the deliveries after it.
   */
  lemma {:induction false} CompletedCycleRestarts(catalog: seq<string>, k: nat)
    requires NoDuplicates(catalog) && catalog != [] && k > 0
    ensures Deliveries(catalog, catalog, k) == Deliveries(catalog, [], k)
  {
    FirstUnseenAfterPrefix(catalog, |catalog|);
    FirstUnseenAfterPrefix(catalog, 0);
    assert catalog[..|catalog|] == catalog && catalog[..0] == [];
    assert [] + [catalog[0]] == [catalog[0]];
    assert SelectNext(catalog, catalog) == Some(Selection(catalog[0], [catalog[0]])) == SelectNext(catalog, []);
  }

  /** A new user's first delivery is the first catalog image, which starts their history. */
  lemma FirstDelivery(catalog: seq<string>)
    requires catalog != []
    ensures Deliveries(catalog, [], 1) == Run([catalog[0]], [catalog[0]])
  {
    assert catalog[0] !in [];
    assert [] + [catalog[0]] == [catalog[0]];
    assert SelectNext(catalog, []) == Some(Selection(catalog[0], [catalog[0]]));
  }

  /** From an empty history, n deliveries send the catalog in order and record all of it. */
  lemma OneCycle(catalog: seq<string>)
    requires NoDuplicates(catalog)
    ensures Deliveries(catalog, [], |catalog|) == Run(catalog, catalog)
  {
    var n := |catalog|;
    assert catalog[..0] == [] && catalog[..n] == catalog && catalog[0..n] == catalog;
    DeliveriesWithinCycle(catalog, 0, n);
  }

  /**
   * A full cycle: from an empty history, n successful deliveries send every image exactly once in
   * catalog order and leave the history equal to the catalog; delivery n + 1 sends the first image again.
   */
  lemma FullCycle(catalog: seq<string>)
    requires NoDuplicates(catalog) && catalog != []
    ensures Deliveries(catalog, [], |catalog|) == Run(catalog, catalog)
    ensures Deliveries(catalog, [], |catalog| + 1).photos == catalog + [catalog[0]]
  {
    OneCycle(catalog);
    Periodic(catalog, 1);
    FirstDelivery(catalog);
  }

  /** With distinct images, a delivery after the first `j` of them sends image `j` and records it. */
  lemma DeliveryAfterPrefix(catalog: seq<string>, j: nat, k: nat)
    requires NoDuplicates(catalog) && j < |catalog| && k > 0
    ensures Deliveries(catalog, catalog[..j], k) ==
      Run([catalog[j]] + Deliveries(catalog, catalog[..j + 1], k - 1).photos, Deliveries(catalog, catalog[..j + 1], k - 1).history)
  {
    FirstUnseenAfterPrefix(catalog, j);
    assert catalog[..j] + [catalog[j]] == catalog[..j + 1];
    assert SelectNext(catalog, catalog[..j]) == Some(Selection(catalog[j], catalog[..j + 1]));
  }

  /** At the end of a cycle nothing of it is left to send, and what follows is a new user's rotation. */
  lemma CycleEnd(catalog: seq<string>, k: nat)
    requires NoDuplicates(catalog) && catalog != []
    ensures Deliveries(catalog, catalog[..|catalog|], k).photos == catalog[|catalog|..] + Deliveries(catalog, [], k).photos
    ensures k > 0 ==> Deliveries(catalog, catalog[..|catalog|], k).history == Deliveries(catalog, [], k).history
  {
    var restart := Deliveries(catalog, [], k);
    assert catalog[..|catalog|] == catalog && catalog[|catalog|..] == [];
    assert [] + restart.photos == restart.photos;
    if k > 0 {
      CompletedCycleRestarts(catalog, k);
    }
  }

  /** One delivery before the end of a cycle: image `j` goes first, and the rest is as from `j + 1`. */
  lemma CycleStep(catalog: seq<string>, j: nat, k: nat)
    requires NoDuplicates(catalog) && j < |catalog|
    requires Deliveries(catalog, catalog[..j + 1], |catalog| - (j + 1) + k).photos ==
      catalog[j + 1..] + Deliveries(catalog, [], k).photos
    requires k > 0 ==>
      Deliveries(catalog, catalog[..j + 1], |catalog| - (j + 1) + k).history == Deliveries(catalog, [], k).history
    ensures Deliveries(catalog, catalog[..j], |catalog| - j + k).photos == catalog[j..] + Deliveries(catalog, [], k).photos
    ensures k > 0 ==> Deliveries(catalog, catalog[..j], |catalog| - j + k).history == Deliveries(catalog, [], k).history
  {
    var m := |catalog| - j + k;
    var restart := Deliveries(catalog, [], k);
    DeliveryAfterPrefix(catalog, j, m);
    var next := Deliveries(catalog, catalog[..j + 1], m - 1);
    assert catalog[j..] == [catalog[j]] + catalog[j + 1..];
    ConcatAssociative([catalog[j]], catalog[j + 1..], restart.photos);
    calc {
      Deliveries(catalog, catalog[..j], m).photos;
      [catalog[j]] + next.photos;
      [catalog[j]] + (catalog[j + 1..] + restart.photos);
      ([catalog[j]] + catalog[j + 1..]) + restart.photos;
      catalog[j..] + restart.photos;
    }
  }

  /**
   * From a history holding the first `j` images, the deliveries that finish the cycle send the
   * remaining images in order, and every delivery after that repeats what a new user would get.
   */
  lemma {:induction false} CycleThenRestart(catalog: seq<string>, j: nat, k: nat)
    requires NoDuplicates(catalog) && catalog != [] && j <= |catalog|
    ensures Deliveries(catalog, catalog[..j], |catalog| - j + k).photos == catalog[j..] + Deliveries(catalog, [], k).photos
    ensures k > 0 ==> Deliveries(catalog, catalog[..j], |catalog| - j + k).history == Deliveries(catalog, [], k).history
    decreases |catalog| - j
  {
    if j == |catalog| {
      CycleEnd(catalog, k);
    } else {
      CycleThenRestart(catalog, j + 1, k);
      CycleStep(catalog, j, k);
    }
  }

  /**
   * The rotation repeats with period n: n + k deliveries from an empty history send the whole
   * catalog and then exactly what the first k deliveries send, ending in the same history.
   */
  lemma Periodic(catalog: seq<string>, k: nat)
    requires NoDuplicates(catalog) && catalog != [] && k > 0
    ensures Deliveries(catalog, [], |catalog| + k) ==
      Run(catalog + Deliveries(catalog, [], k).photos, Deliveries(catalog, [], k).history)
  {
    CycleThenRestart(catalog, 0, k);
    assert catalog[..0] == [] && catalog[0..] == catalog;
  }
}

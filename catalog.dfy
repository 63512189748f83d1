/**
 The state the product controller works on and what its three writing actions
 do to it, as functions on values:
   - the `products` table (id -> name, details, price),
   - the `product_images` table (id -> product_id, image path),
   - the set of files present under the public root (paths relative to it),
   - the next auto-increment id of each table.
 `Stored`, `Updated` and `Destroyed` give the new state and the response of
 `store`, `update` and `destroy`; the class in module Controller performs the
 same steps one write at a time and is proved to end in these states.
 */
module Catalog {
  import opened ImagePaths
  import opened Requests

  datatype Product = Product(name: string, details: string, price: string)

  datatype ImageRow = ImageRow(productId: nat, path: string)

  datatype State = State(
    products: map<nat, Product>,
    images: map<nat, ImageRow>,
    files: set<string>,
    nextProductId: nat,
    nextImageId: nat)

  /** What an action answers: a redirect to the product list, a redirect
      back, the validation errors, or 404 from route-model binding. */
  datatype Response = RedirectToIndex | RedirectBack | Invalid(errors: set<Field>) | NotFound

  /** Auto-increment bookkeeping: every id in use has been issued, and every
      image row names a product id that has been issued (its product may
      since have been deleted). */
  ghost predicate Valid(st: State) {
    && (forall id :: id in st.products ==> id < st.nextProductId)
    && (forall id :: id in st.images ==> id < st.nextImageId && st.images[id].productId < st.nextProductId)
  }

  /** The three fields `$request->only('name', 'details', 'price')` yields. */
  function Submitted(req: Request): Product {
    Product(req.name, req.details, req.price)
  }

  /** The stored paths of a sequence of uploads, as a set. */
  function NewPaths(uploads: seq<Upload>, draws: seq<Draw>): set<string>
    requires |draws| == |uploads|
  {
    set k | 0 <= k < |uploads| :: StoredPath(draws[k], uploads[k].extension)
  }

  /** The paths of the rows with a listed id. */
  function RemovedPaths(images: map<nat, ImageRow>, ids: seq<int>): set<string> {
    set id | id in images && id in ids :: images[id].path
  }

  // ---------------------------------------------------------------------
  // One step of each loop, and the loops

  /** One iteration of the add loop: move the file in, create the row. */
  function AddImage(st: State, pid: nat, path: string): State {
    st.(files := st.files + {path},
        images := st.images[st.nextImageId := ImageRow(pid, path)],
        nextImageId := st.nextImageId + 1)
  }

  /** The add loop over the uploads, in upload order. */
  function AddImages(st: State, pid: nat, uploads: seq<Upload>, draws: seq<Draw>): State
    requires |draws| == |uploads|
    decreases |uploads|
  {
    if uploads == [] then st
    else
      var n := |uploads| - 1;
      AddImage(AddImages(st, pid, uploads[..n], draws[..n]), pid, StoredPath(draws[n], uploads[n].extension))
  }

  /** One iteration of the remove loop: `ProductImage::find($id)` by id alone;
      when a row is found, unlink its file if present and delete the row. */
  function RemoveImage(st: State, id: int): State {
    if id >= 0 && id in st.images then
      var path := st.images[id].path;
      st.(files := if path in st.files then st.files - {path} else st.files,
          images := st.images - {id})
    else st
  }

  /** The remove loop over `remove_images`, in the order given. */
  function RemoveImages(st: State, ids: seq<int>): State
    decreases |ids|
  {
    if ids == [] then st
    else RemoveImage(RemoveImages(st, ids[..|ids| - 1]), ids[|ids| - 1])
  }

  // ---------------------------------------------------------------------
  // The actions

  /** `store`: validate, create the product, then add every upload. */
  function Stored(st: State, req: Request, draws: seq<Draw>): (State, Response)
    requires |draws| == |req.uploads|
  {
    var errors := Errors(req);
    if errors != {} then (st, Invalid(errors))
    else
      var pid := st.nextProductId;
      var created := st.(products := st.products[pid := Submitted(req)], nextProductId := pid + 1);
      (AddImages(created, pid, req.uploads, draws), RedirectToIndex)
  }

  /** `update`: resolve the product, validate, overwrite its fields, run the
      remove loop, then the add loop. */
  function Updated(st: State, pid: int, req: Request, draws: seq<Draw>): (State, Response)
    requires |draws| == |req.uploads|
  {
    if !(pid >= 0 && pid in st.products) then (st, NotFound)
    else
      var errors := Errors(req);
      if errors != {} then (st, Invalid(errors))
      else
        var edited := st.(products := st.products[pid := Submitted(req)]);
        (AddImages(RemoveImages(edited, req.removeImages), pid, req.uploads, draws), RedirectToIndex)
  }

  /** `destroy`: resolve the product and delete its row; nothing else. */
  function Destroyed(st: State, pid: int): (State, Response) {
    if !(pid >= 0 && pid in st.products) then (st, NotFound)
    else (st.(products := st.products - {pid as nat}), RedirectBack)
  }

  // ---------------------------------------------------------------------
  // The product's images in creation order

  /** The ids below `n` of the rows that belong to product `pid`, ascending,
      i.e. in the order the rows were created. */
  function ImagesOf(images: map<nat, ImageRow>, pid: nat, n: nat): seq<nat>
    decreases n
  {
    if n == 0 then []
    else ImagesOf(images, pid, n - 1) + (if n - 1 in images && images[n - 1].productId == pid then [n - 1] else [])
  }

  /** `ImagesOf` lists exactly the rows of `pid` below `n`, strictly ascending. */
  lemma {:induction false} ImagesOfExactly(images: map<nat, ImageRow>, pid: nat, n: nat)
    ensures forall k :: 0 <= k < |ImagesOf(images, pid, n)| ==>
      var id := ImagesOf(images, pid, n)[k]; id < n && id in images && images[id].productId == pid
    ensures forall id :: id < n && id in images && images[id].productId == pid ==> id in ImagesOf(images, pid, n)
    ensures forall i, j :: 0 <= i < j < |ImagesOf(images, pid, n)| ==> ImagesOf(images, pid, n)[i] < ImagesOf(images, pid, n)[j]
    decreases n
  {
    if n > 0 {
      ImagesOfExactly(images, pid, n - 1);
    }
  }

  /** `count` consecutive ids from `start`. */
  function Range(start: nat, count: nat): seq<nat>
    decreases count
  {
    if count == 0 then [] else Range(start, count - 1) + [start + count - 1]
  }

  /** `s` without the listed ids, order kept. */
  function Without(s: seq<nat>, ids: seq<int>): seq<nat>
    decreases |s|
  {
    if s == [] then []
    else Without(s[..|s| - 1], ids) + (if s[|s| - 1] in ids then [] else [s[|s| - 1]])
  }

  // ---------------------------------------------------------------------
  // The loops, all inputs

  /** The add loop leaves the products, the existing rows and the product
      counter alone, and issues one image id per upload. */
  lemma {:induction false} AddImagesFrame(st: State, pid: nat, uploads: seq<Upload>, draws: seq<Draw>)
    requires |draws| == |uploads|
    requires forall id :: id in st.images ==> id < st.nextImageId
    ensures var st' := AddImages(st, pid, uploads, draws);
      && st'.products == st.products && st'.nextProductId == st.nextProductId
      && st'.nextImageId == st.nextImageId + |uploads|
      && (forall id :: id in st'.images <==> id in st.images || st.nextImageId <= id < st'.nextImageId)
      && (forall id :: id in st.images ==> st'.images[id] == st.images[id])
    decreases |uploads|
  {
    if uploads != [] {
      var n := |uploads| - 1;
      AddImagesFrame(st, pid, uploads[..n], draws[..n]);
    }
  }

  /** The add loop issues one image id per upload and changes no product. */
  lemma {:induction false} AddImagesCounters(st: State, pid: nat, uploads: seq<Upload>, draws: seq<Draw>)
    requires |draws| == |uploads|
    ensures var st' := AddImages(st, pid, uploads, draws);
      st'.nextImageId == st.nextImageId + |uploads| && st'.nextProductId == st.nextProductId && st'.products == st.products
    decreases |uploads|
  {
    if uploads != [] {
      var n := |uploads| - 1;
      AddImagesCounters(st, pid, uploads[..n], draws[..n]);
    }
  }

  /** The add loop's rows: the k-th upload gets id `nextImageId + k`, names
      `pid` and the path built from its own draw and extension. */
  lemma {:induction false} AddImagesRow(st: State, pid: nat, uploads: seq<Upload>, draws: seq<Draw>, k: nat)
    requires |draws| == |uploads| && k < |uploads|
    requires forall id :: id in st.images ==> id < st.nextImageId
    ensures var st' := AddImages(st, pid, uploads, draws);
      && st.nextImageId + k in st'.images
      && st'.images[st.nextImageId + k] == ImageRow(pid, StoredPath(draws[k], uploads[k].extension))
    decreases |uploads|
  {
    var n := |uploads| - 1;
    if k < n {
      AddImagesRow(st, pid, uploads[..n], draws[..n], k);
      AddImagesCounters(st, pid, uploads[..n], draws[..n]);
      assert uploads[..n][k] == uploads[k] && draws[..n][k] == draws[k];
    } else {
      AddImagesCounters(st, pid, uploads[..n], draws[..n]);
    }
  }

  lemma NewPathsSnoc(uploads: seq<Upload>, draws: seq<Draw>)
    requires |draws| == |uploads| && uploads != []
    ensures var n := |uploads| - 1;
      NewPaths(uploads, draws) == NewPaths(uploads[..n], draws[..n]) + {StoredPath(draws[n], uploads[n].extension)}
  {
    var n := |uploads| - 1;
    var a := NewPaths(uploads, draws);
    var b := NewPaths(uploads[..n], draws[..n]) + {StoredPath(draws[n], uploads[n].extension)};
    forall p | p in a ensures p in b {
      var k :| 0 <= k < |uploads| && p == StoredPath(draws[k], uploads[k].extension);
      if k < n {
        assert uploads[..n][k] == uploads[k] && draws[..n][k] == draws[k];
      }
    }
    forall p | p in b ensures p in a {
      if p != StoredPath(draws[n], uploads[n].extension) {
        var k :| 0 <= k < n && p == StoredPath(draws[..n][k], uploads[..n][k].extension);
        assert uploads[..n][k] == uploads[k] && draws[..n][k] == draws[k];
      }
    }
  }

  lemma NewPathsHas(uploads: seq<Upload>, draws: seq<Draw>, k: nat)
    requires |draws| == |uploads| && k < |uploads|
    ensures StoredPath(draws[k], uploads[k].extension) in NewPaths(uploads, draws)
  {
  }

  /** The add loop's files: every upload's path is now present, and nothing
      else was added or removed. */
  lemma {:induction false} AddImagesFiles(st: State, pid: nat, uploads: seq<Upload>, draws: seq<Draw>)
    requires |draws| == |uploads|
    ensures AddImages(st, pid, uploads, draws).files == st.files + NewPaths(uploads, draws)
    decreases |uploads|
  {
    if uploads != [] {
      var n := |uploads| - 1;
      AddImagesFiles(st, pid, uploads[..n], draws[..n]);
      NewPathsSnoc(uploads, draws);
    }
  }

  /** Adding rows for an issued product keeps the id bookkeeping consistent. */
  lemma AddImagesKeepsValid(st: State, pid: nat, uploads: seq<Upload>, draws: seq<Draw>)
    requires Valid(st) && |draws| == |uploads| && pid < st.nextProductId
    ensures Valid(AddImages(st, pid, uploads, draws))
  {
    var st' := AddImages(st, pid, uploads, draws);
    AddImagesFrame(st, pid, uploads, draws);
    forall id | id in st'.images
      ensures id < st'.nextImageId && st'.images[id].productId < st'.nextProductId
    {
      if id !in st.images {
        AddImagesRow(st, pid, uploads, draws, id - st.nextImageId);
      }
    }
  }

  lemma RemovedPathsSnoc(images: map<nat, ImageRow>, ids: seq<int>)
    requires ids != []
    ensures var x := ids[|ids| - 1]; var init := ids[..|ids| - 1];
      RemovedPaths(images, ids) ==
        RemovedPaths(images, init) + (if x >= 0 && x in images then {images[x].path} else {})
  {
    var x := ids[|ids| - 1];
    var init := ids[..|ids| - 1];
    assert ids == init + [x];
    assert forall id: nat :: id in ids <==> id in init || id == x;
  }

  /** The remove loop deletes exactly the rows whose id it lists, whoever owns
      them, and the files those rows named; every other row is unchanged and
      a listed id without a row is skipped. */
  lemma {:induction false} RemoveImagesEffect(st: State, ids: seq<int>)
    ensures var st' := RemoveImages(st, ids);
      && st'.products == st.products && st'.nextProductId == st.nextProductId
      && st'.nextImageId == st.nextImageId
      && (forall id :: id in st'.images <==> id in st.images && id !in ids)
      && (forall id :: id in st'.images ==> st'.images[id] == st.images[id])
      && st'.files == st.files - RemovedPaths(st.images, ids)
    decreases |ids|
  {
    if ids != [] {
      var init := ids[..|ids| - 1];
      var x := ids[|ids| - 1];
      assert ids == init + [x];
      RemoveImagesEffect(st, init);
      RemovedPathsSnoc(st.images, ids);
    }
  }

  /** The remove loop issues no id and changes no product. */
  lemma {:induction false} RemoveImagesCounters(st: State, ids: seq<int>)
    ensures var st' := RemoveImages(st, ids);
      st'.nextImageId == st.nextImageId && st'.nextProductId == st.nextProductId && st'.products == st.products
    decreases |ids|
  {
    if ids != [] {
      RemoveImagesCounters(st, ids[..|ids| - 1]);
    }
  }

  /** Deleting rows keeps the id bookkeeping consistent. */
  lemma RemoveImagesKeepsValid(st: State, ids: seq<int>)
    requires Valid(st)
    ensures Valid(RemoveImages(st, ids))
  {
    RemoveImagesEffect(st, ids);
  }

  /** Only which existing rows are listed matters: ids without a row, repeated
      ids and the order of the list make no difference. */
  lemma RemoveImagesDependsOnListedRows(st: State, a: seq<int>, b: seq<int>)
    requires forall id :: id in st.images ==> (id in a <==> id in b)
    ensures RemoveImages(st, a) == RemoveImages(st, b)
  {
    RemoveImagesEffect(st, a);
    RemoveImagesEffect(st, b);
    var ra := RemoveImages(st, a);
    var rb := RemoveImages(st, b);
    assert RemovedPaths(st.images, a) == RemovedPaths(st.images, b);
    assert ra.images == rb.images;
  }

  /** An id that matches no row is skipped without changing anything. */
  lemma RemoveAbsentIdIsNoop(st: State, ids: seq<int>, id: int)
    requires !(id >= 0 && id in st.images)
    ensures RemoveImages(st, ids + [id]) == RemoveImages(st, ids)
  {
    RemoveImagesDependsOnListedRows(st, ids + [id], ids);
  }

  /** Running the remove loop a second time with the same ids changes nothing. */
  lemma RemoveImagesIdempotent(st: State, ids: seq<int>)
    ensures RemoveImages(RemoveImages(st, ids), ids) == RemoveImages(st, ids)
  {
    var once := RemoveImages(st, ids);
    RemoveImagesEffect(st, ids);
    RemoveImagesEffect(once, ids);
    assert RemovedPaths(once.images, ids) == {};
    assert RemoveImages(once, ids).images == once.images;
  }

  // ---------------------------------------------------------------------
  // Creation order of a product's images

  lemma {:induction false} ImagesOfAgree(a: map<nat, ImageRow>, b: map<nat, ImageRow>, pid: nat, n: nat)
    requires forall id :: id < n ==> (id in a <==> id in b)
    requires forall id :: id < n && id in a ==> a[id] == b[id]
    ensures ImagesOf(a, pid, n) == ImagesOf(b, pid, n)
    decreases n
  {
    if n > 0 {
      ImagesOfAgree(a, b, pid, n - 1);
    }
  }

  lemma {:induction false} ImagesOfNone(images: map<nat, ImageRow>, pid: nat, n: nat)
    requires forall id :: id in images ==> images[id].productId != pid
    ensures ImagesOf(images, pid, n) == []
    decreases n
  {
    if n > 0 {
      ImagesOfNone(images, pid, n - 1);
    }
  }

  lemma WithoutSnoc(s: seq<nat>, x: nat, ids: seq<int>)
    ensures Without(s + [x], ids) == Without(s, ids) + (if x in ids then [] else [x])
  {
    assert (s + [x])[..|s|] == s;
  }

  /** Deleting the listed keys from a table removes exactly those ids from
      every product's image list. */
  lemma {:induction false} ImagesOfFiltered(a: map<nat, ImageRow>, b: map<nat, ImageRow>, ids: seq<int>, pid: nat, n: nat)
    requires forall id :: id in b <==> id in a && id !in ids
    requires forall id :: id in b ==> b[id] == a[id]
    ensures ImagesOf(b, pid, n) == Without(ImagesOf(a, pid, n), ids)
    decreases n
  {
    if n > 0 {
      ImagesOfFiltered(a, b, ids, pid, n - 1);
      var m := n - 1;
      if m in a && a[m].productId == pid {
        assert ImagesOf(a, pid, n) == ImagesOf(a, pid, m) + [m];
        WithoutSnoc(ImagesOf(a, pid, m), m, ids);
        if m in ids {
          assert m !in b;
        } else {
          assert m in b && b[m] == a[m];
          assert ImagesOf(b, pid, n) == ImagesOf(b, pid, m) + [m];
        }
      } else {
        assert ImagesOf(a, pid, n) == ImagesOf(a, pid, m);
        assert !(m in b && b[m].productId == pid);
        assert ImagesOf(b, pid, n) == ImagesOf(b, pid, m);
      }
    }
  }

  /** After the remove loop, a product's images are its earlier images
      without the listed ids, in the same order. */
  lemma ImagesOfAfterRemove(st: State, ids: seq<int>, pid: nat, n: nat)
    ensures ImagesOf(RemoveImages(st, ids).images, pid, n) == Without(ImagesOf(st.images, pid, n), ids)
  {
    RemoveImagesEffect(st, ids);
    ImagesOfFiltered(st.images, RemoveImages(st, ids).images, ids, pid, n);
  }

  /** Rows `n .. n + m - 1` all of product `pid` extend its list by exactly
      those ids when the table agrees with `a` below `n`. */
  lemma {:induction false} ImagesOfExtend(a: map<nat, ImageRow>, b: map<nat, ImageRow>, pid: nat, n: nat, m: nat)
    requires forall id :: id < n ==> (id in a <==> id in b)
    requires forall id :: id < n && id in a ==> a[id] == b[id]
    requires forall id :: n <= id < n + m ==> id in b && b[id].productId == pid
    ensures ImagesOf(b, pid, n + m) == ImagesOf(a, pid, n) + Range(n, m)
    decreases m
  {
    var earlier := ImagesOf(a, pid, n);
    if m == 0 {
      ImagesOfAgree(a, b, pid, n);
      assert earlier + [] == earlier;
    } else {
      var id := n + (m - 1);
      ImagesOfExtend(a, b, pid, n, m - 1);
      assert id in b && b[id].productId == pid;
      assert ImagesOf(b, pid, n + m) == ImagesOf(b, pid, id) + [id];
      assert (earlier + Range(n, m - 1)) + [id] == earlier + (Range(n, m - 1) + [id]);
    }
  }

  /** Rows `n .. n + m - 1` of some other product leave `q`'s list as it was
      below `n`. */
  lemma {:induction false} ImagesOfExtendOther(a: map<nat, ImageRow>, b: map<nat, ImageRow>, q: nat, n: nat, m: nat)
    requires forall id :: id < n ==> (id in a <==> id in b)
    requires forall id :: id < n && id in a ==> a[id] == b[id]
    requires forall id :: n <= id < n + m ==> id in b && b[id].productId != q
    ensures ImagesOf(b, q, n + m) == ImagesOf(a, q, n)
    decreases m
  {
    if m == 0 {
      ImagesOfAgree(a, b, q, n);
    } else {
      ImagesOfExtendOther(a, b, q, n, m - 1);
      assert n + (m - 1) in b && b[n + (m - 1)].productId != q;
    }
  }

  /** Every row the add loop creates belongs to `pid`. */
  lemma AddImagesOwners(st: State, pid: nat, uploads: seq<Upload>, draws: seq<Draw>)
    requires |draws| == |uploads|
    requires forall id :: id in st.images ==> id < st.nextImageId
    ensures var after := AddImages(st, pid, uploads, draws).images;
      forall id :: st.nextImageId <= id < st.nextImageId + |uploads| ==> id in after && after[id].productId == pid
  {
    var after := AddImages(st, pid, uploads, draws).images;
    forall id | st.nextImageId <= id < st.nextImageId + |uploads|
      ensures id in after && after[id].productId == pid
    {
      AddImagesRow(st, pid, uploads, draws, id - st.nextImageId);
    }
  }

  /** Adding rows for `pid` appends their ids to its list, in upload order. */
  lemma ImagesOfAfterAddOwn(st: State, pid: nat, uploads: seq<Upload>, draws: seq<Draw>, after: map<nat, ImageRow>)
    requires |draws| == |uploads|
    requires forall id :: id in st.images ==> id < st.nextImageId
    requires after == AddImages(st, pid, uploads, draws).images
    ensures ImagesOf(after, pid, st.nextImageId + |uploads|)
         == ImagesOf(st.images, pid, st.nextImageId) + Range(st.nextImageId, |uploads|)
  {
    AddImagesFrame(st, pid, uploads, draws);
    AddImagesOwners(st, pid, uploads, draws);
    ImagesOfExtend(st.images, after, pid, st.nextImageId, |uploads|);
  }

  /** Adding rows for `pid` leaves every other product's list as it was. */
  lemma ImagesOfAfterAddOther(st: State, pid: nat, uploads: seq<Upload>, draws: seq<Draw>, after: map<nat, ImageRow>, q: nat)
    requires |draws| == |uploads| && q != pid
    requires forall id :: id in st.images ==> id < st.nextImageId
    requires after == AddImages(st, pid, uploads, draws).images
    ensures ImagesOf(after, q, st.nextImageId + |uploads|) == ImagesOf(st.images, q, st.nextImageId)
  {
    AddImagesFrame(st, pid, uploads, draws);
    AddImagesOwners(st, pid, uploads, draws);
    ImagesOfExtendOther(st.images, after, q, st.nextImageId, |uploads|);
  }

  // ---------------------------------------------------------------------
  // The actions, all inputs

  /** A rejected request writes nothing: validation runs before any write. */
  lemma RejectedRequestChangesNothing(st: State, pid: int, req: Request, draws: seq<Draw>)
    requires |draws| == |req.uploads|
    requires !Passes(req)
    ensures Stored(st, req, draws) == (st, Invalid(Errors(req)))
    ensures Updated(st, pid, req, draws).0 == st
    ensures Updated(st, pid, req, draws).1 == if pid >= 0 && pid in st.products then Invalid(Errors(req)) else NotFound
  {
  }

  /** A valid `store` creates one product with exactly the submitted fields,
      issues one image id per upload, moves every upload's file in, and leaves
      the rows that existed before untouched. */
  lemma StoredEffect(st: State, req: Request, draws: seq<Draw>)
    requires Valid(st) && |draws| == |req.uploads|
    requires Passes(req)
    ensures var st' := Stored(st, req, draws).0;
      && Stored(st, req, draws).1 == RedirectToIndex
      && st'.products == st.products[st.nextProductId := Submitted(req)]
      && st'.nextProductId == st.nextProductId + 1
      && st'.nextImageId == st.nextImageId + |req.uploads|
      && (forall id :: id in st'.images <==> id in st.images || st.nextImageId <= id < st'.nextImageId)
      && (forall id :: id in st.images ==> id in st'.images && st'.images[id] == st.images[id])
      && st'.files == st.files + NewPaths(req.uploads, draws)
  {
    var pid := st.nextProductId;
    var created := st.(products := st.products[pid := Submitted(req)], nextProductId := pid + 1);
    assert Stored(st, req, draws) == (AddImages(created, pid, req.uploads, draws), RedirectToIndex);
    AddImagesFrame(created, pid, req.uploads, draws);
    AddImagesFiles(created, pid, req.uploads, draws);
  }

  /** A valid `store` keeps the id bookkeeping consistent. */
  lemma StoredKeepsValid(st: State, req: Request, draws: seq<Draw>)
    requires Valid(st) && |draws| == |req.uploads|
    ensures Valid(Stored(st, req, draws).0)
  {
    if Passes(req) {
      var pid := st.nextProductId;
      var created := st.(products := st.products[pid := Submitted(req)], nextProductId := pid + 1);
      assert Stored(st, req, draws).0 == AddImages(created, pid, req.uploads, draws);
      AddImagesKeepsValid(created, pid, req.uploads, draws);
    }
  }

  /** The product a valid `store` creates has exactly the new rows, in upload
      order. */
  lemma StoredImagesOf(st: State, req: Request, draws: seq<Draw>)
    requires Valid(st) && |draws| == |req.uploads|
    requires Passes(req)
    ensures var st' := Stored(st, req, draws).0;
      ImagesOf(st'.images, st.nextProductId, st'.nextImageId) == Range(st.nextImageId, |req.uploads|)
  {
    var pid := st.nextProductId;
    var created := st.(products := st.products[pid := Submitted(req)], nextProductId := pid + 1);
    var st' := AddImages(created, pid, req.uploads, draws);
    assert Stored(st, req, draws).0 == st';
    AddImagesCounters(created, pid, req.uploads, draws);
    ImagesOfNone(created.images, pid, created.nextImageId);
    ImagesOfAfterAddOwn(created, pid, req.uploads, draws, st'.images);
    assert [] + Range(st.nextImageId, |req.uploads|) == Range(st.nextImageId, |req.uploads|);
  }

  /** Every row a valid `store` creates names the new product and a file that
      is now present, whose path is `products/<time>_<random>.<ext>` for that
      upload's draw and an allowed extension. */
  lemma StoredPathsWellFormed(st: State, req: Request, draws: seq<Draw>, k: nat)
    requires Valid(st) && |draws| == |req.uploads|
    requires Passes(req) && k < |req.uploads|
    ensures var st' := Stored(st, req, draws).0;
      && st.nextImageId + k in st'.images
      && var row := st'.images[st.nextImageId + k];
      && row.productId == st.nextProductId
      && row.path in st'.files
      && ParseStoredPath(row.path) == Some((draws[k], req.uploads[k].extension))
      && req.uploads[k].extension in AllowedExtensions
  {
    var pid := st.nextProductId;
    var created := st.(products := st.products[pid := Submitted(req)], nextProductId := pid + 1);
    var st' := Stored(st, req, draws).0;
    assert st' == AddImages(created, pid, req.uploads, draws);
    var path := StoredPath(draws[k], req.uploads[k].extension);
    AddImagesRow(created, pid, req.uploads, draws, k);
    assert st.nextImageId + k in st'.images && st'.images[st.nextImageId + k] == ImageRow(pid, path);
    AddImagesFiles(created, pid, req.uploads, draws);
    NewPathsHas(req.uploads, draws, k);
    assert path in st'.files;
    ParseStoredPathRoundTrip(draws[k], req.uploads[k].extension);
    AcceptedExtensions(req, k);
  }


  /** A valid `update` overwrites the three fields of the product and keeps
      every row whose id is not listed; a listed row is gone whichever product
      owned it. */
  lemma UpdatedEffect(st: State, pid: int, req: Request, draws: seq<Draw>)
    requires Valid(st) && |draws| == |req.uploads|
    requires pid >= 0 && pid in st.products && Passes(req)
    ensures var st' := Updated(st, pid, req, draws).0;
      && Updated(st, pid, req, draws).1 == RedirectToIndex
      && st'.products == st.products[pid := Submitted(req)]
      && st'.nextProductId == st.nextProductId
      && st'.nextImageId == st.nextImageId + |req.uploads|
      && (forall id :: id in st.images ==> (id in st'.images <==> id !in req.removeImages))
      && (forall id :: id in st.images && id !in req.removeImages ==> st'.images[id] == st.images[id])
      && (forall id :: id in st'.images <==>
            (id in st.images && id !in req.removeImages) || st.nextImageId <= id < st'.nextImageId)
  {
    var edited := st.(products := st.products[pid := Submitted(req)]);
    var removed := RemoveImages(edited, req.removeImages);
    assert Updated(st, pid, req, draws) == (AddImages(removed, pid, req.uploads, draws), RedirectToIndex);
    RemoveImagesEffect(edited, req.removeImages);
    AddImagesFrame(removed, pid, req.uploads, draws);
  }

  /** Every `update`, valid or not, keeps the id bookkeeping consistent, and
      it answers 404 exactly when the product does not exist. */
  lemma UpdatedKeepsValid(st: State, pid: int, req: Request, draws: seq<Draw>)
    requires Valid(st) && |draws| == |req.uploads|
    ensures Valid(Updated(st, pid, req, draws).0)
    ensures Updated(st, pid, req, draws).1 == NotFound <==> !(pid >= 0 && pid in st.products)
  {
    if pid >= 0 && pid in st.products && Passes(req) {
      var edited := st.(products := st.products[pid := Submitted(req)]);
      var removed := RemoveImages(edited, req.removeImages);
      assert Updated(st, pid, req, draws).0 == AddImages(removed, pid, req.uploads, draws);
      RemoveImagesKeepsValid(edited, req.removeImages);
      RemoveImagesCounters(edited, req.removeImages);
      AddImagesKeepsValid(removed, pid, req.uploads, draws);
    }
  }

  /** A valid `update` adds one row per upload for the product, with the next
      ids in upload order, removals having finished first. */
  lemma UpdatedNewRows(st: State, pid: int, req: Request, draws: seq<Draw>, k: nat)
    requires Valid(st) && |draws| == |req.uploads|
    requires pid >= 0 && pid in st.products && Passes(req) && k < |req.uploads|
    ensures var st' := Updated(st, pid, req, draws).0;
      && st.nextImageId + k in st'.images
      && st'.images[st.nextImageId + k] == ImageRow(pid, StoredPath(draws[k], req.uploads[k].extension))
  {
    var edited := st.(products := st.products[pid := Submitted(req)]);
    var removed := RemoveImages(edited, req.removeImages);
    assert Updated(st, pid, req, draws).0 == AddImages(removed, pid, req.uploads, draws);
    RemoveImagesKeepsValid(edited, req.removeImages);
    RemoveImagesCounters(edited, req.removeImages);
    AddImagesRow(removed, pid, req.uploads, draws, k);
  }

  /** A valid `update` deletes the files of the listed rows, then moves the
      uploads in; a path deleted and then re-created is present. */
  lemma UpdatedFiles(st: State, pid: int, req: Request, draws: seq<Draw>)
    requires |draws| == |req.uploads|
    requires pid >= 0 && pid in st.products && Passes(req)
    ensures Updated(st, pid, req, draws).0.files
         == (st.files - RemovedPaths(st.images, req.removeImages)) + NewPaths(req.uploads, draws)
  {
    var edited := st.(products := st.products[pid := Submitted(req)]);
    var removed := RemoveImages(edited, req.removeImages);
    assert Updated(st, pid, req, draws).0 == AddImages(removed, pid, req.uploads, draws);
    RemoveImagesEffect(edited, req.removeImages);
    AddImagesFiles(removed, pid, req.uploads, draws);
  }

  /** A valid `update` with nothing to remove and no files changes only the
      product's three fields. */
  lemma UpdatedFieldsOnly(st: State, pid: int, req: Request, draws: seq<Draw>)
    requires |draws| == |req.uploads|
    requires pid >= 0 && pid in st.products && Passes(req)
    requires req.uploads == [] && req.removeImages == []
    ensures Updated(st, pid, req, draws) == (st.(products := st.products[pid := Submitted(req)]), RedirectToIndex)
  {
  }

  /** After a valid `update`, the product's images in creation order are its
      old images without the removed ids, followed by the new rows in upload
      order. Every other product also loses the listed ids it owned, because
      removal looks rows up by id alone, and gains nothing. */
  lemma UpdatedImagesOf(st: State, pid: int, req: Request, draws: seq<Draw>, q: nat)
    requires Valid(st) && |draws| == |req.uploads|
    requires pid >= 0 && pid in st.products && Passes(req)
    ensures var st' := Updated(st, pid, req, draws).0;
      ImagesOf(st'.images, q, st'.nextImageId)
        == Without(ImagesOf(st.images, q, st.nextImageId), req.removeImages)
           + (if q == pid then Range(st.nextImageId, |req.uploads|) else [])
  {
    var edited := st.(products := st.products[pid := Submitted(req)]);
    var removed := RemoveImages(edited, req.removeImages);
    var st' := AddImages(removed, pid, req.uploads, draws);
    assert Updated(st, pid, req, draws).0 == st';
    var n := st.nextImageId;
    var kept := Without(ImagesOf(st.images, q, n), req.removeImages);
    assert removed.nextImageId == n && ImagesOf(removed.images, q, n) == kept by {
      RemoveImagesCounters(edited, req.removeImages);
      ImagesOfAfterRemove(edited, req.removeImages, q, n);
    }
    assert Valid(removed) by {
      RemoveImagesKeepsValid(edited, req.removeImages);
    }
    assert st'.nextImageId == n + |req.uploads| by {
      AddImagesCounters(removed, pid, req.uploads, draws);
    }
    if q == pid {
      ImagesOfAfterAddOwn(removed, pid, req.uploads, draws, st'.images);
    } else {
      ImagesOfAfterAddOther(removed, pid, req.uploads, draws, st'.images, q);
      assert kept + [] == kept;
    }
  }

  /** `destroy` deletes the product row and nothing else: its image rows and
      their files stay. */
  lemma DestroyedEffect(st: State, pid: int)
    requires Valid(st)
    ensures var st' := Destroyed(st, pid).0;
      && Valid(st')
      && (Destroyed(st, pid).1 == RedirectBack <==> pid >= 0 && pid in st.products)
      && (Destroyed(st, pid).1 == NotFound ==> st' == st)
      && st'.products == st.products - {pid}
      && st'.images == st.images && st'.files == st.files
      && st'.nextProductId == st.nextProductId && st'.nextImageId == st.nextImageId
  {
  }
}

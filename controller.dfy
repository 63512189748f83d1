/**
 `ProductController` performs `store`, `update` and `destroy` one write at a
 time on its own copy of the tables and the file set, as the PHP actions do
 through Eloquent and the filesystem. Each action is proved to end in the
 state and response the functions of module Catalog give, so every property
 proved there holds of the class.
 */
module Controller {
  import opened ImagePaths
  import opened Requests
  import opened Catalog

  class ProductController {
    var products: map<nat, Product>
    var images: map<nat, ImageRow>
    var files: set<string>
    var nextProductId: nat
    var nextImageId: nat

    /** The tables and files as a value. */
    function Snapshot(): State
      reads this
    {
      State(products, images, files, nextProductId, nextImageId)
    }

    ghost predicate Valid()
      reads this
    {
      Catalog.Valid(Snapshot())
    }

    /** Empty tables whose auto-increment ids start at 1, and no files. */
    constructor ()
      ensures Snapshot() == State(map[], map[], {}, 1, 1)
      ensures Valid()
    {
      products := map[];
      images := map[];
      files := {};
      nextProductId := 1;
      nextImageId := 1;
    }

    /** The add loop: for each upload, move the file in under its new name,
        then create an image row for `pid` with its path. */
    method AddUploads(pid: nat, uploads: seq<Upload>, draws: seq<Draw>)
      requires |draws| == |uploads|
      modifies this
      ensures Snapshot() == AddImages(old(Snapshot()), pid, uploads, draws)
    {
      var i := 0;
      while i < |uploads|
        invariant 0 <= i <= |uploads|
        invariant Snapshot() == AddImages(old(Snapshot()), pid, uploads[..i], draws[..i])
      {
        var path := StoredPath(draws[i], uploads[i].extension);
        files := files + {path};
        images := images[nextImageId := ImageRow(pid, path)];
        nextImageId := nextImageId + 1;
        assert uploads[..i + 1][..i] == uploads[..i] && draws[..i + 1][..i] == draws[..i];
        i := i + 1;
      }
      assert uploads[..i] == uploads && draws[..i] == draws;
    }

    /** The remove loop: look each id up among all image rows; when one is
        found, unlink its file if it exists and delete the row. */
    method RemoveListed(ids: seq<int>)
      modifies this
      ensures Snapshot() == RemoveImages(old(Snapshot()), ids)
    {
      var i := 0;
      while i < |ids|
        invariant 0 <= i <= |ids|
        invariant Snapshot() == RemoveImages(old(Snapshot()), ids[..i])
      {
        var id := ids[i];
        if id >= 0 && id in images {
          var path := images[id].path;
          if path in files {
            files := files - {path};
          }
          images := images - {id};
        }
        assert ids[..i + 1][..i] == ids[..i];
        i := i + 1;
      }
      assert ids[..i] == ids;
    }

    /** `store`. A rejected request changes nothing. */
    method Store(req: Request, draws: seq<Draw>) returns (r: Response)
      requires Valid() && |draws| == |req.uploads|
      modifies this
      ensures (Snapshot(), r) == Stored(old(Snapshot()), req, draws)
      ensures r.Invalid? ==> Snapshot() == old(Snapshot())
      ensures Valid()
    {
      StoredKeepsValid(Snapshot(), req, draws);
      var errors := Errors(req);
      if errors != {} {
        return Invalid(errors);
      }
      var pid := nextProductId;
      products := products[pid := Submitted(req)];
      nextProductId := pid + 1;
      AddUploads(pid, req.uploads, draws);
      r := RedirectToIndex;
    }

    /** `update` of the product bound to `pid`. An unknown id answers 404 and a
        rejected request changes nothing. */
    method Update(pid: int, req: Request, draws: seq<Draw>) returns (r: Response)
      requires Valid() && |draws| == |req.uploads|
      modifies this
      ensures (Snapshot(), r) == Updated(old(Snapshot()), pid, req, draws)
      ensures (r.NotFound? || r.Invalid?) ==> Snapshot() == old(Snapshot())
      ensures Valid()
    {
      UpdatedKeepsValid(Snapshot(), pid, req, draws);
      if !(pid >= 0 && pid in products) {
        return NotFound;
      }
      var errors := Errors(req);
      if errors != {} {
        return Invalid(errors);
      }
      products := products[pid := Submitted(req)];
      RemoveListed(req.removeImages);
      AddUploads(pid, req.uploads, draws);
      r := RedirectToIndex;
    }

    /** `destroy` of the product bound to `pid`. */
    method Destroy(pid: int) returns (r: Response)
      requires Valid()
      modifies this
      ensures (Snapshot(), r) == Destroyed(old(Snapshot()), pid)
      ensures r.NotFound? ==> Snapshot() == old(Snapshot())
      ensures Valid()
    {
      DestroyedEffect(Snapshot(), pid);
      if !(pid >= 0 && pid in products) {
        return NotFound;
      }
      products := products - {pid as nat};
      r := RedirectBack;
    }
  }
}

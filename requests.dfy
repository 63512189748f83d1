/**
 The form a store or update request carries, and the validation rules both
 actions apply before they write anything:
   name: required, details: required, price: required|numeric,
   images.*: image|mimes:jpg,jpeg,png,webp.
 How the validator decides `numeric` and `image` (parsing a number, sniffing a
 file's content) is not modelled: the request carries those verdicts.
 */
module Requests {

  /** One uploaded file: the extension the framework guesses for it and the
      verdict of the `image` rule on its content. */
  datatype Upload = Upload(extension: string, isImage: bool)

  /** The submitted form as the controller receives it, i.e. after whatever
      input middleware the application runs. `priceIsNumeric` is the `numeric` rule's verdict on
      `price`; `uploads` are the `images` files in upload order; `removeImages`
      are the ids listed in `remove_images` (update only; never validated). */
  datatype Request = Request(
    name: string,
    details: string,
    price: string,
    priceIsNumeric: bool,
    uploads: seq<Upload>,
    removeImages: seq<int>)

  /** A field the validator can report; `Image(k)` is `images.k`. */
  datatype Field = Name | Details | Price | Image(index: nat)

  /** The extensions `mimes:jpg,jpeg,png,webp` accepts. */
  const AllowedExtensions: set<string> := {"jpg", "jpeg", "png", "webp"}

  /** The characters PHP's `trim` removes. */
  const TrimChars: set<char> := {' ', '\t', '\n', '\r', '\0', 11 as char}

  /** The `required` rule on a string: something is left after trimming. */
  predicate Required(s: string) {
    exists i :: 0 <= i < |s| && s[i] !in TrimChars
  }

  /** The `image|mimes:...` rules on one uploaded file. */
  predicate AcceptedUpload(u: Upload) {
    u.isImage && u.extension in AllowedExtensions
  }

  /** The request passes every rule. */
  predicate Passes(req: Request) {
    && Required(req.name)
    && Required(req.details)
    && Required(req.price) && req.priceIsNumeric
    && forall k :: 0 <= k < |req.uploads| ==> AcceptedUpload(req.uploads[k])
  }

  /** The fields the validator rejects. */
  function Errors(req: Request): (e: set<Field>)
    ensures e == {} <==> Passes(req)
    ensures Name in e <==> !Required(req.name)
    ensures Details in e <==> !Required(req.details)
    ensures Price in e <==> !(Required(req.price) && req.priceIsNumeric)
    ensures forall f :: f in e && f.Image? ==> f.index < |req.uploads| && !AcceptedUpload(req.uploads[f.index])
    ensures forall k :: 0 <= k < |req.uploads| && !AcceptedUpload(req.uploads[k]) ==> Image(k) in e
  {
    var rejected := set k | 0 <= k < |req.uploads| && !AcceptedUpload(req.uploads[k]) :: Image(k);
    assert forall k :: 0 <= k < |req.uploads| && !AcceptedUpload(req.uploads[k]) ==> Image(k) in rejected;
    (if Required(req.name) then {} else {Name})
    + (if Required(req.details) then {} else {Details})
    + (if Required(req.price) && req.priceIsNumeric then {} else {Price})
    + rejected
  }

  /** A request that passes validation names only allowed extensions. */
  lemma AcceptedExtensions(req: Request, k: nat)
    requires Errors(req) == {}
    requires k < |req.uploads|
    ensures req.uploads[k].extension in AllowedExtensions
  {
    assert AcceptedUpload(req.uploads[k]);
  }
}

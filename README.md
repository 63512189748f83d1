# Product catalogue with image uploads: store, update and destroy

This project models the write side of a Laravel product catalogue, which lives
in `ProductController`. A product has a name, details and a price, plus any
number of image rows. Each image row points at a file under `public/products/`.
The model covers three actions:

- **store** validates the form, creates the product, then moves each uploaded
  file in under the generated name `<time>_<random8>.<extension>` and records
  an image row for it.
- **update** resolves the product by id (404 when it does not exist) and
  validates the form. It then overwrites the product's three fields, deletes
  every image row listed in `remove_images` together with its file, and finally
  adds the new uploads as store does.
- **destroy** resolves the product and deletes its row.

The model is split into four modules:

- `ImagePaths` (`image_paths.dfy`) builds the stored path
  `products/<time>_<random8>.<extension>` and a parser that inverts it.
- `Requests` (`requests.dfy`) holds the submitted form and the validation
  rules.
- `Catalog` (`catalog.dfy`) holds the state as a value: the `products` table,
  the `product_images` table, the set of files present, and the next
  auto-increment id of each table.
  - `Stored`, `Updated` and `Destroyed` give each action's new state and
    response.
  - Its lemmas state what each action does for all inputs.
- `Controller` (`controller.dfy`) holds the class `ProductController`.
  - Its fields are those tables and the file set.
  - Its methods perform the actions one write at a time, with the two
    `foreach` loops as `while` loops.
  - Each method is proved to end in exactly the state and response the
    `Catalog` function gives.

The environment supplies the values of `time()` and `Str::random(8)`. They
arrive as one `Draw` per uploaded file, because both calls are made once per
loop iteration. The validator's `numeric` verdict on the price and its `image`
verdict on each file's content also arrive with the request.

Removal looks a row up by id alone (`ProductImage::find($id)`). It does not
look only among the edited product's rows. So an `update` of one product can
delete another product's image row and that image's file. The model keeps this
behaviour: `RemoveImagesEffect` and `UpdatedImagesOf` state it.

A reader may expect deleting a product to remove its images as well. The
controller does not do this: `destroy` only calls `$product->delete()`
(line 126), and the model follows the code (`DestroyedEffect`). A
foreign-key cascade in the database schema could still remove the rows, but
the migrations are not part of this model. Nothing in the code deletes the
files.

## Model

| member | source | states |
|---|---|---|
| ImagePaths.DigitsValueOfDecimal | app/Http/Controllers/ProductController.php:51 | Converting `time()` to decimal loses nothing: the digits read back as the same number. |
| ImagePaths.ParseStoredPathRoundTrip | app/Http/Controllers/ProductController.php:51-55 | Time, random suffix and extension can be read back from a stored path `products/<time>_<random>.<ext>`. |
| ImagePaths.ParseStoredPathExact | app/Http/Controllers/ProductController.php:109-113 | Any path the parser accepts is exactly the stored path built from what it returns, so the parser accepts only paths of this form. |
| ImagePaths.StoredPathInjective | app/Http/Controllers/ProductController.php:51-55 | Two uploads get the same path only if time, suffix and extension are all equal. |
| Requests.Errors | app/Http/Controllers/ProductController.php:36-41 | No errors exactly when the request passes every rule. `name`, `details` and `price` are each reported exactly when their own rule fails, and `images.k` exactly for the rejected uploads. |
| Requests.AcceptedExtensions | app/Http/Controllers/ProductController.php:80-85 | A request that passes validation has only jpg, jpeg, png or webp extensions. |
| Catalog.AddImagesFrame | app/Http/Controllers/ProductController.php:50-57 | The add loop changes no product, keeps every existing row, and issues exactly the ids `nextImageId .. nextImageId + n - 1`. |
| Catalog.AddImagesCounters | app/Http/Controllers/ProductController.php:107-116 | The add loop advances the image counter by the number of uploads and leaves the products and their counter alone. |
| Catalog.AddImagesRow | app/Http/Controllers/ProductController.php:50-57 | The k-th upload's row has id `nextImageId + k`, names the product and holds the path built from that upload's own draw and extension. |
| Catalog.AddImagesFiles | app/Http/Controllers/ProductController.php:52 | After the add loop the files are the old files plus the stored path of every upload, and nothing else. |
| Catalog.AddImagesKeepsValid | app/Http/Controllers/ProductController.php:54-56 | Adding rows for an issued product keeps every id below its table's counter. |
| Catalog.RemoveImagesEffect | app/Http/Controllers/ProductController.php:93-104 | The remove loop deletes exactly the rows whose id it lists, whichever product owns them, and exactly those rows' files. Other rows, products and counters are unchanged. |
| Catalog.RemoveImagesCounters | app/Http/Controllers/ProductController.php:94-103 | The remove loop issues no id and changes no product. |
| Catalog.RemoveImagesKeepsValid | app/Http/Controllers/ProductController.php:94-103 | Deleting rows keeps the id bookkeeping consistent. |
| Catalog.RemoveImagesDependsOnListedRows | app/Http/Controllers/ProductController.php:94-96 | Only which existing rows are listed matters: order, repeats and ids without a row make no difference. |
| Catalog.RemoveAbsentIdIsNoop | app/Http/Controllers/ProductController.php:95-96 | An id that `find` does not resolve is skipped and changes nothing. |
| Catalog.RemoveImagesIdempotent | app/Http/Controllers/ProductController.php:93-104 | Running the remove loop again with the same ids changes nothing. |
| Catalog.ImagesOfExactly | app/Http/Controllers/ProductController.php:54 | A product's image list holds exactly its rows, in strictly ascending (creation) order. |
| Catalog.ImagesOfAfterRemove | app/Http/Controllers/ProductController.php:93-104 | After removal a product's list is its old list without the listed ids, in the same order. |
| Catalog.ImagesOfAfterAddOwn | app/Http/Controllers/ProductController.php:107-116 | Adding rows for a product appends their ids to its list, in upload order. |
| Catalog.ImagesOfAfterAddOther | app/Http/Controllers/ProductController.php:112-114 | Adding rows for a product leaves every other product's list as it was. |
| Catalog.RejectedRequestChangesNothing | app/Http/Controllers/ProductController.php:80-85 | A request that fails validation writes nothing. Store answers with the errors; update answers 404 first if the product is unknown. |
| Catalog.StoredEffect | app/Http/Controllers/ProductController.php:34-61 | A valid store creates one product with the submitted fields under the next id and issues one image id per upload. The rows afterwards are exactly the old rows, unchanged, plus the new ids. It adds every upload's file and redirects to the index. |
| Catalog.StoredKeepsValid | app/Http/Controllers/ProductController.php:44-57 | Every store keeps the id bookkeeping consistent. |
| Catalog.StoredImagesOf | app/Http/Controllers/ProductController.php:49-57 | The new product's image list is exactly the new ids, in upload order. |
| Catalog.StoredPathsWellFormed | app/Http/Controllers/ProductController.php:50-56 | Every new row names the new product and a file that is present. Its path parses back to that upload's draw and an allowed extension. |
| Catalog.UpdatedEffect | app/Http/Controllers/ProductController.php:78-119 | A valid update overwrites the three fields. The rows afterwards are exactly the unlisted old rows, unchanged, plus one new id per upload. It redirects to the index. |
| Catalog.UpdatedKeepsValid | app/Http/Controllers/ProductController.php:78-116 | Every update keeps the id bookkeeping consistent, and answers 404 exactly when the product does not exist, whatever the request. |
| Catalog.UpdatedNewRows | app/Http/Controllers/ProductController.php:107-116 | The k-th upload of a valid update becomes row `nextImageId + k` of the product, with that upload's path. |
| Catalog.UpdatedFiles | app/Http/Controllers/ProductController.php:93-116 | The files after a valid update are the old files minus those of the listed rows, plus the new uploads. Removal runs first, so a path deleted and then re-created is present. |
| Requests.Required | app/Http/Controllers/ProductController.php:37-39 | The `required` rule: something other than PHP `trim` characters is left. Specified by `Errors`, whose ensures report `name`, `details` and `price` exactly when it fails. |
| Requests.AcceptedUpload | app/Http/Controllers/ProductController.php:84 | The `images.*` rule `image|mimes:jpg,jpeg,png,webp` on one file. Specified by `Errors` (`images.k` is reported exactly when it fails) and `AcceptedExtensions`. |
| Requests.Passes | app/Http/Controllers/ProductController.php:80-85 | The whole rule set passes. `Errors` proves the error set is empty exactly when it holds. |
| Catalog.Submitted | app/Http/Controllers/ProductController.php:89 | The three fields `$request->only('name', 'details', 'price')` yields. `StoredEffect` and `UpdatedEffect` prove they become the product's row. |
| ImagePaths.Decimal | app/Http/Controllers/ProductController.php:109 | PHP's conversion of `time()` to a string. Its ensures give a non-empty digit string without a leading zero; `DigitsValueOfDecimal` and `DecimalOfDigitsValue` prove it inverse to reading the digits back. |
| ImagePaths.FileName | app/Http/Controllers/ProductController.php:51 | The name `<time>_<random>.<ext>` given to a moved upload. It is specified by `ParseStoredPathRoundTrip`, `ParseStoredPathExact` and `StoredPathInjective` through `StoredPath`. |
| ImagePaths.StoredPath | app/Http/Controllers/ProductController.php:55 | The path `products/` + file name recorded in the image row. `ParseStoredPathRoundTrip` and `ParseStoredPathExact` make `ParseStoredPath` its inverse, and `StoredPathInjective` proves distinct uploads get distinct paths. |
| Catalog.AddImage | app/Http/Controllers/ProductController.php:52-56 | One add iteration: the file is present and a row for the product is created under the next id. `AddImagesRow`, `AddImagesFrame` and `AddImagesFiles` specify the loop built from it. |
| Catalog.AddImages | app/Http/Controllers/ProductController.php:108-115 | The add loop over the uploads in order. Specified by `AddImagesFrame`, `AddImagesCounters`, `AddImagesRow`, `AddImagesFiles`, `AddImagesKeepsValid` and `ImagesOfAfterAddOwn` / `ImagesOfAfterAddOther`. |
| Catalog.RemoveImage | app/Http/Controllers/ProductController.php:95-102 | One remove iteration: `find` by id alone, then unlink if present and delete the row. `RemoveAbsentIdIsNoop` and `RemoveImagesEffect` specify it. |
| Catalog.RemoveImages | app/Http/Controllers/ProductController.php:94-103 | The remove loop in list order. Specified by `RemoveImagesEffect`, `RemoveImagesCounters`, `RemoveImagesKeepsValid`, `RemoveImagesDependsOnListedRows`, `RemoveImagesIdempotent` and `ImagesOfAfterRemove`. |
| Catalog.Stored | app/Http/Controllers/ProductController.php:34-61 | `store` as a function of the state. Specified by `RejectedRequestChangesNothing`, `StoredEffect`, `StoredKeepsValid`, `StoredImagesOf` and `StoredPathsWellFormed`. |
| Catalog.Updated | app/Http/Controllers/ProductController.php:78-119 | `update` as a function of the state. Specified by `RejectedRequestChangesNothing`, `UpdatedEffect`, `UpdatedKeepsValid`, `UpdatedNewRows`, `UpdatedFiles`, `UpdatedFieldsOnly` and `UpdatedImagesOf`. |
| Catalog.Destroyed | app/Http/Controllers/ProductController.php:124-128 | `destroy` as a function of the state. Specified by `DestroyedEffect`. |
| Catalog.ImagesOf | app/Http/Controllers/ProductController.php:54 | A product's images (`$product->images`) by ascending id. `ImagesOfExactly` proves it lists exactly the product's rows, strictly ascending. |
| Catalog.UpdatedFieldsOnly | app/Http/Controllers/ProductController.php:88-116 | A valid update with no ids to remove and no files changes only the product's three fields, and redirects to the index. |
| Catalog.UpdatedImagesOf | app/Http/Controllers/ProductController.php:92-116 | Each product's list after a valid update is its old list without the listed ids. The edited product then gets the new ids in upload order; every other product gains nothing. |
| Catalog.DestroyedEffect | app/Http/Controllers/ProductController.php:124-128 | Destroy redirects back exactly when the product exists and then removes only that product row. Image rows, files and both counters stay; an unknown id changes nothing. |
| Controller.ProductController.AddUploads | app/Http/Controllers/ProductController.php:107-116 | The add loop, one move and one row per upload, ends in the state `AddImages` gives. |
| Controller.ProductController.RemoveListed | app/Http/Controllers/ProductController.php:94-103 | The remove loop, with the `find` / `file_exists` / `unlink` / `delete` steps, ends in the state `RemoveImages` gives. |
| Controller.ProductController.Store | app/Http/Controllers/ProductController.php:34-61 | `store` ends in the state and response `Stored` gives, keeps the bookkeeping valid, and a rejected request changes nothing. |
| Controller.ProductController.Update | app/Http/Controllers/ProductController.php:78-119 | `update` ends in the state and response `Updated` gives, keeps the bookkeeping valid, and 404 or a rejected request changes nothing. |
| Controller.ProductController.Destroy | app/Http/Controllers/ProductController.php:124-128 | `destroy` ends in the state and response `Destroyed` gives and keeps the bookkeeping valid. |

## Left out

- `index`, `create` and `edit` only render pages. They are not modelled. Neither is `resources/js/app.js`, the front-end entry point.
- `numeric` and `image` validation: the checks behind them (number parsing, sniffing the file content) are not modelled. The request carries their verdicts as booleans.
- Input middleware: the request is taken as the controller receives it. Trimming or converting empty strings to null in middleware such as Laravel's `TrimStrings` happens before that and is not modelled.
- `mimes`: the model checks only the file's guessed extension against jpg, jpeg, png and webp. Laravel's MIME-type detection is not modelled.
- What the validator does on failure (redirect back with the error bag) is not modelled. The model just returns `Invalid(errors)` with the set of rejected fields.
- A file move or unlink that fails, and a crash between moving a file and creating its row, are not modelled. Every filesystem and database call is assumed to succeed, so no partial failure is possible.
- Concurrency: two requests racing on the same product or on the same generated file name are not modelled. Each action runs alone.
- Moving a file onto an existing name: file presence is tracked as a set of paths, without contents. The overwrite is therefore not visible.
- The framework's `time()` clock and `Str::random(8)` generator are not modelled. Their values come in as `Draw` parameters.
- Catalog.ImagesOf: a product's images (`$product->images`) are taken to be its rows by ascending id, i.e. in creation order. The relation is defined in app/Models/Product.php, which is not part of this model. Without an `orderBy`, the database does not promise that order.
- `remove_images` is modelled as a sequence of integer ids. Ids that are not integers are not modelled. A missing or empty list, and requests without files (`filled`, `hasFile`), are modelled as empty sequences: the loops then do nothing.
- Timestamps (`created_at`, `updated_at`) and the `latest()` order of the index page are not modelled.
- Foreign-key cascade: a cascade on `product_images` would be defined in the migrations, which are not part of this model. The model follows the controller code, which deletes only the product row.

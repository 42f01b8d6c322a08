/** Optional values and the failures the post service throws. */
module Errors {

  datatype Option<+T> = None | Some(value: T) {
    /** The value, or `default` when absent: the `??` operator. */
    function GetOr(default: T): T {
      match this
      case Some(v) => v
      case None => default
    }
  }

  /** Every way an operation of the post service can fail. */
  datatype Failure =
    | NoImages            // "Minimal satu gambar harus diupload": upload without images
    | NotFound            // "Gagal memuat data": no post row with the requested id
    | Unauthorized        // "Unauthorized: Anda bukan pemilik postingan ini": the caller does not own the post
    | EmptyResult         // "Gagal memuat data": a listing query matched no row
    | ImagesNotFound      // "Gagal mengambil data": no image row matched
    | ColumnTooLong       // the database refuses a value longer than its varchar column
    | ForeignKeyViolation // the database refuses a reference to a missing row

  datatype Result<+T> = Ok(value: T) | Err(error: Failure)
}

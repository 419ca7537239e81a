/**
 The part of a package's JSON document from the Python Package Index that the
 extension reads (the `PypiResult` type of src/extension.ts).
 */
module Pypi {

  /** One element of a release's array of uploaded files; only `upload_time` is read. */
  datatype UploadRecord = UploadRecord(uploadTime: string)

  /**
   The value stored under a version key of `releases`: either an array of upload
   records, or some other JSON value (the `{}` of the declared type).
   */
  datatype ReleaseValue = Records(records: seq<UploadRecord>) | NotAnArray

  /** One `[version, value]` pair of `Object.entries(result.releases)`, in that order. */
  datatype Release = Release(version: string, value: ReleaseValue)

  datatype Info = Info(version: string, description: string)

  datatype PypiResult = PypiResult(info: Info, releases: seq<Release>)
}

/**
 * The license record that licenses/service.go receives and returns by value, and the errors
 * it reports, with the message text of each.
 */
module Licenses {

  /** The kind of license: board and license-type codes sent to the registry, and the
      human-readable type name expected on the result page. */
  datatype LicenseDesc = LicenseDesc(boardCode: int, licenseCode: int, name: string)

  /** `repository.License`: the identity of the holder and the verification result. */
  datatype License = License(
    number: int,
    firstName: string,
    lastName: string,
    desc: LicenseDesc,
    verify: bool,
    status: string,
    expiration: string)

  /** Every error value licenses/service.go can return from verification. `ExpirationNotFound`
      is the error reported where the Go code indexes an empty match list. */
  datatype Error =
    | RequestFailed(reason: string)
    | SendFailed(reason: string)
    | ReadFailed(reason: string)
    | BadHtml
    | NoMatch
    | StatusNotFound
    | ExpirationNotFound
    | FailedToVerify(cause: Error)

  /** The text `err.Error()` gives for each error. The text tells the kind of error apart,
      except that a failed send and a failed read share the `createDcaPost: ` prefix. */
  function Message(e: Error): (m: string)
    ensures e.RequestFailed? <==> "createDcaPost reading request: " <= m
    ensures e.SendFailed? || e.ReadFailed? <==> "createDcaPost: " <= m
    ensures e.FailedToVerify? <==> "Failed to Verify: " <= m
    ensures e.BadHtml? <==> m == "err:Bad html"
    ensures e.NoMatch? <==> m == "No Match"
    ensures e.StatusNotFound? <==> m == "Regex Status match nil"
    ensures e.ExpirationNotFound? <==> m == "Expiration match nil"
  {
    match e
    case RequestFailed(reason) =>
      var m := "createDcaPost reading request: " + reason;
      assert m[0] == 'c' && m[13] == ' ';
      m
    case SendFailed(reason) =>
      var m := "createDcaPost: " + reason;
      assert m[0] == 'c' && m[13] == ':';
      m
    case ReadFailed(reason) =>
      var m := "createDcaPost: " + reason;
      assert m[0] == 'c' && m[13] == ':';
      m
    case BadHtml =>
      var m := "err:Bad html";
      assert m[0] == 'e';
      m
    case NoMatch =>
      var m := "No Match";
      assert m[0] == 'N';
      m
    case StatusNotFound =>
      var m := "Regex Status match nil";
      assert m[0] == 'R';
      m
    case ExpirationNotFound =>
      var m := "Expiration match nil";
      assert m[0] == 'E';
      m
    case FailedToVerify(cause) =>
      var m := "Failed to Verify: " + Message(cause);
      assert m[0] == 'F';
      m
  }

  /** The Go pair `(repository.License, error)`; `None` is a nil error. */
  datatype Reply = Reply(license: License, err: Option<Error>)

  /** `a` and `b` agree on every field verification never writes. */
  predicate SameIdentity(a: License, b: License) {
    a.number == b.number && a.firstName == b.firstName && a.lastName == b.lastName &&
    a.desc == b.desc
  }

  import opened Wrappers
}

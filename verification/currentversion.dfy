/**
 The version `gvm list` marks as current: the last path element of the target
 of the GOROOT link, or "" when the link cannot be read.
 */
module CurrentVersion {
  import opened Common
  import opened GoText

  /** `link` is the link target, None when reading the link fails. */
  function GetCurrentGoVersion(link: Option<string>): (version: string)
    ensures link.None? ==> version == ""
    ensures link.Some? ==>
              var data := link.value;
              && '/' !in version
              && |version| <= |data|
              && data[|data| - |version|..] == version
              && ('/' in data ==> |version| < |data| && data[|data| - |version| - 1] == '/')
              && ('/' !in data ==> version == data)
  {
    match link
    case None => ""
    case Some(data) =>
      LastPieceIsSuffix(data, '/');
      Last(Split(data, '/'))
  }

  /** `gvm use` points the link at `<root>/go<version>`; reading it back gives
      the last element `go<version>`. */
  lemma CurrentVersionOfLink(root: string, name: string)
    requires '/' !in name
    ensures GetCurrentGoVersion(Some(root + "/" + name)) == name
  {
    SplitSnoc(root, name, '/');
  }
}

/** The two input validators of app/lib/documents.ts. A `null` result means
    "valid"; otherwise the result is the error message shown to the user. */
module DocumentValidation {
  import opened Records

  /** The body of a create request: `title`, optional `content`, `type` and
      optional `parent_id` (as the create route passes them on). */
  datatype CreateInput = CreateInput(
    title: string,
    content: Option<string>,
    docType: DocType,
    parentId: Option<string>)

  /** The body of an update request: each field is either absent (`None`) or
      supplied; a supplied `parent_id` may itself be `null`. */
  datatype UpdateInput = UpdateInput(
    title: Option<string>,
    content: Option<string>,
    parentId: Option<Option<string>>)

  const TitleRequired: string := "タイトルは必須です"
  const FolderContentForbidden: string := "フォルダの場合、コンテンツは指定できません"
  const FolderContentNotUpdatable: string := "フォルダのコンテンツは更新できません"

  /** The characters `String.prototype.trim` strips: the ECMAScript
      WhiteSpace and LineTerminator code points. */
  predicate IsJsSpace(c: char)
  {
    || c == '\t' || c == '\n' || c == '\U{000B}' || c == '\U{000C}' || c == '\r' || c == ' '
    || c == '\U{00A0}' || c == '\U{1680}' || ('\U{2000}' <= c <= '\U{200A}')
    || c == '\U{2028}' || c == '\U{2029}' || c == '\U{202F}' || c == '\U{205F}'
    || c == '\U{3000}' || c == '\U{FEFF}'
  }

  predicate AllSpace(s: string)
  {
    forall i :: 0 <= i < |s| ==> IsJsSpace(s[i])
  }

  /** Drops the leading whitespace. */
  function TrimStart(s: string): (r: string)
    ensures |r| <= |s| && r == s[|s| - |r|..]
    ensures AllSpace(s[..|s| - |r|])
    ensures r != [] ==> !IsJsSpace(r[0])
  {
    if s != [] && IsJsSpace(s[0]) then
      var r := TrimStart(s[1..]);
      assert s[1..][..|s| - 1 - |r|] == s[1..|s| - |r|];
      r
    else s
  }

  /** Drops the trailing whitespace. */
  function TrimEnd(s: string): (r: string)
    ensures |r| <= |s| && r == s[..|r|]
    ensures AllSpace(s[|r|..])
    ensures r != [] ==> !IsJsSpace(r[|r| - 1])
  {
    if s != [] && IsJsSpace(s[|s| - 1]) then
      var r := TrimEnd(s[..|s| - 1]);
      assert s[..|s| - 1][|r|..] == s[|r|..|s| - 1];
      r
    else s
  }

  /** `s.trim()` */
  function Trim(s: string): string
  {
    TrimEnd(TrimStart(s))
  }

  /** The trimmed string is the part of `s` between its leading and its
      trailing whitespace, and starts and ends on a non-space character. */
  lemma TrimIsInnerSlice(s: string) returns (i: nat, j: nat)
    ensures i <= j <= |s| && Trim(s) == s[i..j] && AllSpace(s[..i]) && AllSpace(s[j..])
    ensures Trim(s) != [] ==> !IsJsSpace(Trim(s)[0]) && !IsJsSpace(Trim(s)[|Trim(s)| - 1])
  {
    var t := TrimStart(s);
    var r := TrimEnd(t);
    i := |s| - |t|;
    j := i + |r|;
    forall k | 0 <= k < |r| ensures r[k] == s[i + k] {
      assert r[k] == t[k];
    }
    assert r == s[i..j];
    assert s[j..] == t[|r|..];
  }

  /** `!title.trim()` holds exactly for titles made of whitespace only. */
  lemma TrimEmptyIffAllSpace(s: string)
    ensures Trim(s) == [] <==> AllSpace(s)
  {
    var i, j := TrimIsInnerSlice(s);
    if Trim(s) != [] {
      assert Trim(s)[0] == s[i];
    } else {
      forall k | 0 <= k < |s| ensures IsJsSpace(s[k]) {
        if k < i {
          assert s[k] == s[..i][k];
        } else {
          assert s[k] == s[j..][k - j];
        }
      }
    }
  }

  /** `validateCreateDocumentInput`: the title check comes first; a folder
      may not carry truthy content. */
  function ValidateCreate(input: CreateInput): (r: Option<string>)
    ensures r == Some(TitleRequired) <==> AllSpace(input.title)
    ensures r == Some(FolderContentForbidden) <==>
              !AllSpace(input.title) && input.docType == Folder && Truthy(input.content)
    ensures r.Some? ==> r == Some(TitleRequired) || r == Some(FolderContentForbidden)
  {
    TrimEmptyIffAllSpace(input.title);
    if Trim(input.title) == "" then Some(TitleRequired)
    else if input.docType == Folder && Truthy(input.content) then Some(FolderContentForbidden)
    else None
  }

  /** A folder whose content is the empty string passes the create check. */
  lemma EmptyFolderContentPasses(title: string, parentId: Option<string>)
    requires !AllSpace(title)
    ensures ValidateCreate(CreateInput(title, Some(""), Folder, parentId)) == None
  {
  }

  /** `validateUpdateDocumentInput`: a supplied content, even `''`, is refused
      for a folder; nothing else is checked. */
  function ValidateUpdate(input: UpdateInput, currentType: DocType): (r: Option<string>)
    ensures r.Some? <==> input.content.Some? && currentType == Folder
    ensures r.Some? ==> r.value == FolderContentNotUpdatable
  {
    if input.content.Some? && currentType == Folder then Some(FolderContentNotUpdatable) else None
  }

  /** The update check never looks at the title or the parent. */
  lemma UpdateIgnoresTitleAndParent(input: UpdateInput, title: Option<string>, parentId: Option<Option<string>>, t: DocType)
    ensures ValidateUpdate(input.(title := title, parentId := parentId), t) == ValidateUpdate(input, t)
  {
  }
}

/**
 * The attachment records of the artifact API (utils/BubbleSpecialInterfaces.ts). JavaScript's
 * optional and nullable fields become `Option`; numbers become `int`.
 */
module Records {
  import opened Wrappers

  datatype AttachmentContent = AttachmentContent(
    url: Option<string>,
    id: Option<string>,
    name: Option<string>,
    s3Url: Option<string>,
    size: Option<int>,
    width: Option<int>,
    height: Option<int>,
    startTime: Option<int>)

  datatype MetaDataContent = MetaDataContent(
    username: Option<string>,
    avatarUrl: Option<string>,
    mediaUrl: string,
    faviconUrl: string,
    dataText: string,
    title: string,
    fileType: int,
    size: Option<int>,
    streamAudioUrl: string)

  /**
   * The declared `type` union. The records arrive over the network, so a value outside the union
   * can reach the `default:` branches of the switches; `Unknown` carries it.
   */
  datatype AttachmentType = Link | File | SystemMessage | User | Timestamp | Reference | Unknown(tag: string)

  /** The string the record carries in its `type` field. */
  function TypeName(t: AttachmentType): string {
    match t
    case Link => "LINK"
    case File => "FILE"
    case SystemMessage => "SYSTEM_MESSAGE"
    case User => "USER"
    case Timestamp => "TIMESTAMP"
    case Reference => "REFERENCE"
    case Unknown(tag) => tag
  }

  datatype Attachment = Attachment(
    index: int,
    kind: AttachmentType,
    cloudFrontDownloadLink: string,
    metaData: Option<MetaDataContent>,
    content: AttachmentContent)

  /**
   * `selected?.content.id === a.content.id`. With no selection the left side is `undefined`, so an
   * attachment whose id is absent compares equal to it.
   */
  predicate SameContentId(selected: Option<Attachment>, a: Attachment) {
    (if selected.Some? then selected.value.content.id else None) == a.content.id
  }

  /** The comparison is true exactly when both ids are present and equal, or both are absent. */
  lemma SameContentIdCases(selected: Option<Attachment>, a: Attachment)
    ensures SameContentId(selected, a) <==>
      (selected.Some? && selected.value.content.id == a.content.id) || (selected.None? && a.content.id.None?)
  {
  }
}

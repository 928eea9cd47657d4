/** `CandidateSerializer.get_photo_url` (elections/serializers.py): the
    address of a candidate's photo, absolute when the serializer has a
    request to build it from. */
module CandidateSerializer {
  import opened Outcomes

  /** The incoming HTTP request an absolute address is built from. */
  datatype Request = Request(scheme: string, host: string)

  /** The photo file of a candidate: its stored name, NULL when the column
      is NULL. A file is falsy when its name is NULL or empty. */
  datatype PhotoFile = PhotoFile(name: Option<string>)

  predicate HasPhoto(photo: PhotoFile) {
    photo.name.Some? && photo.name.value != ""
  }

  /** The serializer's context: `None` when the serializer has no `context`
      attribute, otherwise a dictionary whose "request" entry, if any, is a
      request or Python `None`. */
  type Context = Option<map<string, Option<Request>>>

  /** `self.context.get("request") if hasattr(self, "context") else None` */
  function RequestOf(context: Context): (r: Option<Request>)
    ensures r.Some? <==> context.Some? && "request" in context.value && context.value["request"].Some?
    ensures r.Some? ==> r == context.value["request"]
  {
    match context
    case None => None
    case Some(entries) => if "request" in entries then entries["request"] else None
  }

  /** `get_photo_url(obj)`. `storageUrl` is the storage backend's
      `photo.url`; `absolute` is `request.build_absolute_uri`. */
  function GetPhotoUrl(
    photo: PhotoFile,
    context: Context,
    storageUrl: string -> string,
    absolute: (Request, string) -> string
  ): (r: Option<string>)
    ensures r.None? <==> !HasPhoto(photo)
    ensures HasPhoto(photo) && RequestOf(context).None? ==> r == Some(storageUrl(photo.name.value))
    ensures HasPhoto(photo) && RequestOf(context).Some? ==>
              r == Some(absolute(RequestOf(context).value, storageUrl(photo.name.value)))
  {
    if !HasPhoto(photo) then None
    else
      var request := RequestOf(context);
      var url := storageUrl(photo.name.value);
      if request.Some? then Some(absolute(request.value, url)) else Some(url)
  }

  /** With a request, the address is the absolute form of the very address
      returned without one; without a photo there is no address in either
      case. */
  lemma AbsoluteOfRelative(
    photo: PhotoFile,
    request: Request,
    storageUrl: string -> string,
    absolute: (Request, string) -> string
  )
    ensures var withRequest := GetPhotoUrl(photo, Some(map["request" := Some(request)]), storageUrl, absolute);
            var without := GetPhotoUrl(photo, None, storageUrl, absolute);
            && withRequest.Some? == without.Some?
            && (without.Some? ==> withRequest.value == absolute(request, without.value))
  {
  }

  /** A `None` request in the context counts as no request. */
  lemma NoneRequestIsRelative(
    photo: PhotoFile,
    storageUrl: string -> string,
    absolute: (Request, string) -> string
  )
    ensures GetPhotoUrl(photo, Some(map["request" := None]), storageUrl, absolute)
            == GetPhotoUrl(photo, Some(map[]), storageUrl, absolute)
            == GetPhotoUrl(photo, None, storageUrl, absolute)
  {
  }
}

/** `get_content` of scival_search/utils.py without the HTTP transport: the
    endpoint lookup with its ValueError and the request it would send. The
    export server is a parameter, a function from request to decoded text. */
module Content {
  import opened Results
  import opened Text

  const SearchApi := "search"
  const RelatedTopicsApi := "related_topics"
  const BaseUrl := "https://www.scival.com"

  /** The two APIs `URLS` knows. */
  predicate KnownApi(api: string) {
    api == SearchApi || api == RelatedTopicsApi
  }

  /** `URLS.get(api)`. */
  function Url(api: string): (url: Option<string>)
    ensures url.Some? <==> KnownApi(api)
    ensures url.Some? ==> StartsWith(url.value, BaseUrl)
    ensures api == SearchApi ==> url == Some(BaseUrl + "/search/export")
    ensures api == RelatedTopicsApi ==> url == Some(BaseUrl + "/trends/relatedtopics/export")
  {
    if api == SearchApi then Some(BaseUrl + "/search/export")
    else if api == RelatedTopicsApi then Some(BaseUrl + "/trends/relatedtopics/export")
    else None
  }

  /** The parts of the GET request that identify what is exported. */
  datatype Request = Request(url: string, uri: string, exportFileType: string, currentPage: int, cookie: string)

  /** The export endpoint: the decoded body it answers a request with. */
  type Server = Request -> string

  /** `pd.read_csv(StringIO(text)).shape[0]`, None where pandas raises. The CSV
      reader is not modelled: quoted fields may span lines, so the row count is
      not a line count. */
  type CsvRows = string -> Option<nat>

  function TopicUri(topicId: string): string {
    "Topic/" + topicId
  }

  /** `get_content(topic_id, api, cookie, page)`: an unknown API raises ValueError
      before any request is built; otherwise one request is sent. */
  function GetContent(topicId: string, api: string, cookie: string, page: int, server: Server): (r: Result<string>)
    ensures r.Failure? <==> !KnownApi(api)
    ensures r.Failure? ==> r.error == InvalidApi(api)
    ensures r.Success? ==> r.value == server(Request(Url(api).value, TopicUri(topicId), "csv", page, cookie))
  {
    match Url(api)
    case None => Failure(InvalidApi(api))
    case Some(url) => Success(server(Request(url, TopicUri(topicId), "csv", page, cookie)))
  }

  /** The answer depends on the server only through the one request for this page,
      and not at all when the API is unknown. */
  lemma GetContentAsksOnce(topicId: string, api: string, cookie: string, page: int, s1: Server, s2: Server)
    requires KnownApi(api) ==> (var request := Request(Url(api).value, TopicUri(topicId), "csv", page, cookie);
                                s1(request) == s2(request))
    ensures GetContent(topicId, api, cookie, page, s1) == GetContent(topicId, api, cookie, page, s2)
  {
  }
}

/** The shape of an analysis as the page holds it: the record the service returns and the share link carries. */
module Types {
  import opened Unicode

  datatype Course = Course(name: JsString, url: JsString, platform: JsString, isFree: bool)

  datatype ApiResource = ApiResource(name: JsString, url: JsString, description: JsString)

  datatype Community = Community(name: JsString, url: JsString, platform: JsString)

  datatype AnalysisResult = AnalysisResult(
    jobTitle: JsString,
    aiImpact: JsString,
    skillHistory: JsString,
    currentAiDevelopments: JsString,
    recommendedCourses: seq<Course>,
    relevantApis: seq<ApiResource>,
    onlineCommunities: seq<Community>)
}

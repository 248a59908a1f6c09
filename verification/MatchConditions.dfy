/** Match conditions as they appear on DAG routes. */
module MatchConditions {

  datatype PathMatch =
    | Prefix(prefix: string, segment: bool)
    | Exact(path: string)
    | Regex(regex: string)

  datatype HeaderMatchType = HeaderExact | HeaderContains | HeaderPresent | HeaderRegex

  datatype HeaderMatch = HeaderMatch(
    name: string,
    value: string,
    matchType: HeaderMatchType,
    invert: bool,
    ignoreCase: bool,
    treatMissingAsEmpty: bool)

  datatype QueryMatchType = QueryExact | QueryPrefix | QuerySuffix | QueryRegex | QueryContains | QueryPresent

  datatype QueryMatch = QueryMatch(name: string, value: string, matchType: QueryMatchType, ignoreCase: bool)
}

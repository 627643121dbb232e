/** The value that travels from the feed client to the report. */
module News {
  import opened JavaLang

  /** The character between headline and priority on the wire. */
  const Separator: char := ';'

  /** An immutable news event: free text and a Java int priority. */
  datatype NewsItem = NewsItem(headline: string, priority: Int32)
}

/** The constant tables of the shared type declarations that the utilities refer to. */
module Types {

  datatype Language = Language(code: string, name: string)

  /** The supported languages, in declaration order. */
  const Languages: seq<Language> := [
    Language("en", "English"),
    Language("es", "Spanish"),
    Language("fr", "French"),
    Language("de", "German"),
    Language("it", "Italian"),
    Language("pt", "Portuguese"),
    Language("ru", "Russian"),
    Language("ja", "Japanese"),
    Language("ko", "Korean"),
    Language("zh", "Chinese"),
    Language("ar", "Arabic"),
    Language("hi", "Hindi"),
    Language("bn", "Bengali"),
    Language("pl", "Polish"),
    Language("uk", "Ukrainian"),
    Language("tr", "Turkish"),
    Language("vi", "Vietnamese"),
    Language("th", "Thai"),
    Language("nl", "Dutch"),
    Language("sv", "Swedish")
  ]
}

/**
 * The fields a template may name (src/template.rs): the scheme's name,
 * author and slug, a colour field, or a name that is none of these.
 */
module TemplateFields {
  import opened Wrappers
  import ColorFieldParser

  datatype TemplateField =
    | SchemeName
    | SchemeAuthor
    | SchemeSlug
    | ColorField(field: ColorFieldParser.ColorField)
    | UnparsableField

  /** `TemplateField::parse_field`: the fixed names first, then the colour-field parser. */
  function ParseField(name: string): (f: TemplateField)
    ensures f.SchemeName? <==> name == "scheme-name" || name == "scheme"
    ensures f.SchemeAuthor? <==> name == "scheme-author"
    ensures f.SchemeSlug? <==> name == "scheme-slug"
    ensures f.ColorField? <==> ColorFieldParser.FromStr(name).Success?
    ensures f.ColorField? ==> f.field == ColorFieldParser.FromStr(name).value
  {
    if name == "scheme-name" || name == "scheme" then SchemeName
    else if name == "scheme-author" then SchemeAuthor
    else if name == "scheme-slug" then SchemeSlug
    else
      match ColorFieldParser.FromStr(name)
      case Success(field) => ColorField(field)
      case Failure(_) => UnparsableField
  }
}

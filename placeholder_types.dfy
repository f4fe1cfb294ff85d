/** Placeholders: named values that a template's text can refer to, such as `{{Client.Name}}`. */
module PlaceholderTypes {
  import opened Options

  datatype PlaceholderType = StringType | NumberType | DateType | BooleanType | EnumType {
    /** The type's name as the data carries it. */
    function Tag(): string {
      match this
      case StringType => "string"
      case NumberType => "number"
      case DateType => "date"
      case BooleanType => "boolean"
      case EnumType => "enum"
    }
  }

  datatype Placeholder = Placeholder(
    id: string,
    name: string,
    displayName: string,
    value: string,
    description: Option<string>,
    ptype: PlaceholderType,
    isNullable: bool,
    enumValues: Option<seq<string>>,
    group: Option<string>)

  datatype PlaceholderGroup = PlaceholderGroup(id: string, name: string, placeholders: seq<Placeholder>)
}

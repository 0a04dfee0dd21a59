/** The commands exchanged between client and server. Only the value-change
    command carries behaviour in this model; the other kinds exist so that
    the registry has more than one key to dispatch on. */
module Commands {
  import opened Values

  type AttributeId = string

  /** "The attribute `attributeId` changed from `oldValue` to `newValue`." */
  datatype ValueChangedCommand = ValueChangedCommand(attributeId: AttributeId, oldValue: Value, newValue: Value)

  /** The discriminator of a command: the Java class the registry is keyed by. */
  datatype CommandKind =
    | ValueChangedKind
    | CreatePresentationModelKind
    | DeletePresentationModelKind
    | ChangeAttributeMetadataKind

  datatype Command =
    | ValueChanged(change: ValueChangedCommand)
    | CreatePresentationModel(pmId: string, pmType: string)
    | DeletePresentationModel(pmId: string)
    | ChangeAttributeMetadata(attributeId: AttributeId, metadataName: string, value: Value)
  {
    function Kind(): CommandKind {
      match this
      case ValueChanged(_) => ValueChangedKind
      case CreatePresentationModel(_, _) => CreatePresentationModelKind
      case DeletePresentationModel(_) => DeletePresentationModelKind
      case ChangeAttributeMetadata(_, _, _) => ChangeAttributeMetadataKind
    }
  }
}

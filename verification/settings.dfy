/** Application-wide limits (the defaults of the settings object, which the
    handlers also hard-code in their request bounds). */
module Settings {
  const DefaultPageSize: nat := 10
  const MaxPageSize: nat := 100
  const MaxOrderItems: nat := 50
  const MaxItemQuantity: nat := 100
}

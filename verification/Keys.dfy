/** Positions in the key matrix (`keypos_t`). */
module Keys {
  datatype Key = Key(row: nat, col: nat)
}

/**
 * The playing field. Its size comes from Constants.h, which is not part of
 * this model, so the width and the height are left as unknown constants: no
 * proof depends on their values.
 */
module Table {

  /** Constants::GAME_WIDTH. */
  const GameWidth: real

  /** Constants::GAME_HEIGHT. */
  const GameHeight: real
}

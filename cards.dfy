/**
 * What the two habit cards share: the colours of utils/colors.ts they
 * paint with, the default colour of a done cell, and the arguments a card
 * passes to `toggleCheckGlobal`.
 */
module Cards {
  import opened Calendar
  import opened Schema

  /** `Colors.cellColor`: an empty monthly cell. */
  const CellColor: string := "#2F2F2F"

  /** `Colors.checkBoxBackground`: an empty weekly cell. */
  const CheckBoxBackground: string := "#404040"

  /** `Colors.disabledCellColor`: a weekly cell in the future. */
  const DisabledCellColor: string := "#2c2c2c"

  /** The literal colour of a done cell when the habit has none. */
  const DefaultDoneColor: string := "#40c463"

  /** `toggleCheckGlobal(habitId, dateIso, curStatus)`. */
  datatype ToggleCall = ToggleCall(habitId: HabitId, date: Day, status: Cell)
}

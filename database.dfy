/**
 * The `settings` table: one text value per key, the key column carrying a
 * unique index. Looking a key up (`SettingValue::findByKey`) finds at most
 * one row, so the table is a map from key to value.
 */
module Database {

  class SettingsTable {
    var rows: map<string, string>

    constructor(initial: map<string, string>)
      ensures rows == initial
    {
      rows := initial;
    }
  }
}

/** Concrete lines, file names and counts, and what the model of
    services/logParser.ts decides for them. */
module LogParserScenarios {
  import opened JsString
  import opened LogParser

  /** A bare signal-strength report with no accessory keyword. */
  const DeviceLine := "Device 04:12 RSSI -62"

  lemma DeviceLineLacksL()
    ensures 'l' !in DeviceLine && 'L' !in DeviceLine
  {
  }

  lemma DeviceLineLacksU()
    ensures 'u' !in DeviceLine && 'U' !in DeviceLine
  {
  }

  lemma DeviceLineShape()
    ensures 'A' !in DeviceLine && '\n' !in DeviceLine
    ensures DeviceLine[0] == 'D' && DeviceLine[|DeviceLine| - 1] == '2'
  {
  }

  lemma DeviceLineIsConnectivity()
    ensures HasConnectivitySignal(DeviceLine)
  {
    assert DeviceLine[0..6] == "Device";
    ContainsAt(DeviceLine, "Device", 0);
    assert DeviceLine[13..17] == "RSSI";
    ContainsAt(DeviceLine, "RSSI", 13);
  }

  /** The signal-strength line is kept for a bluetooth-named source only. */
  lemma DeviceLineNeedsBluetoothSource()
    ensures IsRelevant(DeviceLine, true)
    ensures !IsRelevant(DeviceLine, false)
  {
    DeviceLineLacksL();
    DeviceLineLacksU();
    DeviceLineShape();
    DeviceLineIsConnectivity();
    OnlyConnectivity(DeviceLine, true);
    OnlyConnectivity(DeviceLine, false);
  }

  /** "Bluetooth.log" switches the connectivity rule on. */
  lemma BluetoothNameIsBluetoothLog()
    ensures IsBluetoothLog("Bluetooth.log")
  {
    assert Lower("Bluetooth") == "bluetooth";
    IsTextLogByMention("", "Bluetooth", ".log");
    assert "" + "Bluetooth" + ".log" == "Bluetooth.log";
  }

  lemma DeviceLineTrimmed()
    ensures Trim(DeviceLine) == DeviceLine
  {
    DeviceLineShape();
    TrimKeepsSolidEnds(DeviceLine);
  }

  lemma TrimKeepsSolidEnds(s: string)
    requires s != [] && !IsWhitespace(s[0]) && !IsWhitespace(s[|s| - 1])
    ensures Trim(s) == s
  {
  }

  /** Filtered on its own under a bluetooth-named source, the
      signal-strength line survives untouched. */
  lemma DeviceLineKeptFromBluetoothLog()
    ensures FilteredText(DeviceLine, "Bluetooth.log") == DeviceLine
  {
    DeviceLineShape();
    DeviceLineTrimmed();
    DeviceLineNeedsBluetoothSource();
    BluetoothNameIsBluetoothLog();
    SingleLineFiltered(DeviceLine, "Bluetooth.log");
  }

  /** Under the label the sysdiagnose pipeline uses, the same line is dropped. */
  lemma DeviceLineDroppedFromScan()
    ensures FilteredText(DeviceLine, ScanFileName) == ""
  {
    DeviceLineShape();
    DeviceLineNeedsBluetoothSource();
    ScanFileNameNotBluetooth();
    SingleLineFiltered(DeviceLine, ScanFileName);
  }

  /** The fields after the device-name marker of the state-dump record. */
  const StateDumpFields := ": \"Apple Pencil Pro\", LastSeen: 25946174, LastConn: 314488"

  /** A time-stamped state-dump record naming the accessory in its
      device-name field. */
  const StateDumpLine := "2024-05-01 09:41:07 " + "statedump" + ": " + "GAPName" + StateDumpFields

  /** The state-dump record is kept from any source, by the state-dump rule. */
  lemma StateDumpLineKept(isBluetoothLog: bool)
    ensures HasStateDump(StateDumpLine)
    ensures IsRelevant(StateDumpLine, isBluetoothLog)
  {
    StateDumpWithNameFieldKept("2024-05-01 09:41:07 ", ": ", StateDumpFields, isBluetoothLog);
  }

  /** A connection event of an unrelated accessory. */
  const AccessoryLine := "Connected to Magic Keyboard"

  lemma AccessoryLineLacksL()
    ensures 'l' !in AccessoryLine && 'L' !in AccessoryLine
  {
  }

  lemma AccessoryLineLacksU()
    ensures 'u' !in AccessoryLine && 'U' !in AccessoryLine
  {
  }

  lemma AccessoryLineLacksA()
    ensures 'A' !in AccessoryLine
  {
  }

  lemma AccessoryLineIsConnectivity()
    ensures HasConnectivitySignal(AccessoryLine)
  {
    assert AccessoryLine[0..7] == "Connect";
    ContainsAt(AccessoryLine, "Connect", 0);
  }

  /** The unrelated accessory's connection event is dropped from a source
      that is not a bluetooth log, and kept from one that is. */
  lemma AccessoryLineNeedsBluetoothSource()
    ensures !IsRelevant(AccessoryLine, false)
    ensures IsRelevant(AccessoryLine, true)
  {
    AccessoryLineLacksL();
    AccessoryLineLacksU();
    AccessoryLineLacksA();
    AccessoryLineIsConnectivity();
    OnlyConnectivity(AccessoryLine, false);
    OnlyConnectivity(AccessoryLine, true);
  }

  /** 1000 matches keep matches 201 to 1000, in order. */
  lemma TailCapThousand()
    ensures TailCap(seq(1000, i => i + 1), MaxLines) == seq(800, i => i + 201)
  {
  }

  /** A compressed archive's name is not taken for a text log. */
  lemma ArchiveIsNotTextLog()
    ensures !IsTextLog("archive.tar.gz")
  {
    var name := "archive.tar.gz";
    ArchiveNameLetters();
    LowerLacks(name, 'b');
    LowerLacks(name, 'y');
    var lower := Lower(name);
    assert lower[|lower| - 1] == 'z';
    NotContainsMissingChar(lower, "bluetooth", 'b');
    NotContainsMissingChar(lower, "system", 'y');
  }

  lemma ArchiveNameLetters()
    ensures 'b' !in "archive.tar.gz" && 'B' !in "archive.tar.gz"
    ensures 'y' !in "archive.tar.gz" && 'Y' !in "archive.tar.gz"
  {
  }
}

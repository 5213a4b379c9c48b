/** The catalogue of supported mice (the `MouseClass` records). */
module Registry {

  /** A 16-bit USB identifier (vendor id, product id, usage page, usage). */
  type U16 = x: int | 0 <= x < 0x1_0000

  /** One mouse model: its vendor id, the product ids of its wireless
      receiver and of its cable connection, and the HID usage page / usage
      pair that selects the vendor-defined interface of the composite device. */
  datatype MouseClass = MouseClass(
    model: string,
    vid: U16,
    pidWireless: U16,
    pidWired: U16,
    usagePage: U16,
    usage: U16)

  /** The vendor-defined interface every known model answers on. */
  const VendorUsagePage: U16 := 0xFF02
  const VendorUsage: U16 := 0x0002

  const AtkF1Ultimate := MouseClass("ATK F1 Ultimate", 0x373B, 0x1031, 0x102E, 0xFF02, 0x0002)
  const VxeR1ProMax := MouseClass("VXE R1 Pro Max", 0x3554, 0xF58A, 0xF58C, 0xFF02, 0x0002)
  const VxeR1SePlus := MouseClass("VXE R1 SE+", 0x3554, 0xF58E, 0xF58F, 0xFF02, 0x0002)
  const VgnF1Pro := MouseClass("VGN F1 Pro", 0x3554, 0xF503, 0xF502, 0xFF02, 0x0002)

  /** The model the program is built for. */
  const ActiveMouse := VxeR1ProMax

  /** Every known model: all use the vendor interface, each has two
      different product ids, and no (vendor id, product id) pair belongs to
      two models, so an enumeration hit identifies the model. */
  function KnownModels(): (ms: seq<MouseClass>)
    ensures |ms| == 4 && ActiveMouse in ms
    ensures forall m <- ms :: m.usagePage == VendorUsagePage && m.usage == VendorUsage
    ensures forall m <- ms :: m.pidWireless != m.pidWired
    ensures forall i, j :: 0 <= i < j < |ms| && ms[i].vid == ms[j].vid ==>
      ms[i].pidWireless !in {ms[j].pidWireless, ms[j].pidWired} &&
      ms[i].pidWired !in {ms[j].pidWireless, ms[j].pidWired}
  {
    [AtkF1Ultimate, VxeR1ProMax, VxeR1SePlus, VgnF1Pro]
  }
}

/**
  The static query catalog of DatabaseQuerySelector: two parallel constant
  arrays, one holding the display name shown in the list, the other the query
  text sent to the database for the entry at the same position.
 */
module Catalog {
  /** Number of entries in the catalog; every list index below it is valid. */
  const CatalogSize: nat := 10

  /** The display names, in list order (AVAILABLE_QUERIES). */
  const AvailableQueries: seq<string> := [
    "1. In-Store Shopping",
    "2. Online Shopping through Mobile App",
    "3. Return Items at Physical Location",
    "4. Check Return Policy Compliance",
    "5. Customer Purchase History",
    "6. Items Frequently Purchased",
    "7. Slow-Selling Items with Discount Strategy",
    "8. Employees with Exceptional Comments",
    "9. Grocery Delivery Service Frequency",
    "10. Average Grocery Order Amounts"
  ]

  /** The query texts, in the same order (QUERY_STRINGS). They are opaque to the model. */
  const QueryStrings: seq<string> := [
    "SELECT c.Customer_ID, c.First_name + ' ' + c.Last_name AS Customer_Name, " +
    "st.Type_Name AS Shopping_Type, r.Date_of_purchase, " +
    "r.Total_purchase_amount, sm.Method_Name AS Shopping_Method " +
    "FROM Customer c " +
    "JOIN Shopping_Types st ON c.Shopping_Type_ID = st.Type_ID " +
    "JOIN Receipt r ON c.Customer_ID = r.Customer_ID " +
    "JOIN Shopping_Methods sm ON r.Shopping_Method_ID = sm.Method_ID " +
    "WHERE st.Type_Name = 'In-Store' OR sm.Method_Name = 'In-Store'",

    "SELECT c.Customer_ID, c.First_name + ' ' + c.Last_name AS Customer_Name, " +
    "g.Date_of_purchase, g.Cart, g.Total_price, g.Pickup_time " +
    "FROM Grocery_app g " +
    "JOIN Customer c ON g.Customer_ID = c.Customer_ID",

    "SELECT c.Customer_ID, c.First_name + ' ' + c.Last_name AS Customer_Name, " +
    "r.Date_of_Return, i.Brand AS Returned_Item, r.Reason, " +
    "rm.Method_Name AS Return_Method, cr.Return_Policy_Compliant " +
    "FROM Returns r " +
    "JOIN Customer c ON r.Customer_ID = c.Customer_ID " +
    "JOIN Return_Methods rm ON r.Return_Method_ID = rm.Method_ID " +
    "JOIN Item i ON r.Item_ID = i.Item_ID " +
    "JOIN Customer_Return cr ON r.Return_ID = cr.Return_ID " +
    "WHERE rm.Method_Name = 'In-Store'",

    "SELECT r.Return_ID, i.Brand, r.Date_of_Return, " +
    "CASE WHEN cr.Return_Policy_Compliant = 1 THEN 'Compliant' " +
    "ELSE 'Non-Compliant' END AS Policy_Status " +
    "FROM Returns r " +
    "JOIN Customer_Return cr ON r.Return_ID = cr.Return_ID " +
    "JOIN Item i ON cr.Item_ID = i.Item_ID",

    "SELECT c.Customer_ID, c.First_name + ' ' + c.Last_name AS Customer_Name, " +
    "i.Brand AS Item_Purchased, ph.Quantity, ph.Price, ph.Purchase_Date " +
    "FROM Purchase_History ph " +
    "JOIN Customer c ON ph.Customer_ID = c.Customer_ID " +
    "JOIN Item i ON ph.Item_ID = i.Item_ID " +
    "WHERE c.Customer_ID = 1 " +
    "ORDER BY ph.Purchase_Date DESC",

    "SELECT TOP 5 I.Item_ID, I.Brand, I.Stock, " +
    "I.Purchase_Frequency AS Purchase_Frequency, I.Retail_Price " +
    "FROM Item I " +
    "ORDER BY I.Purchase_Frequency DESC",

    "SELECT TOP 10 I.Item_ID, I.Brand, I.Stock, I.Purchase_Frequency, I.Retail_Price, " +
    "CASE WHEN I.Purchase_Frequency < 50 THEN 25 " +
    "WHEN I.Purchase_Frequency < 100 THEN 15 " +
    "ELSE 10 END AS Suggested_Discount_Percentage, " +
    "I.Retail_Price * (1 - CASE WHEN I.Purchase_Frequency < 50 THEN 0.25 " +
    "WHEN I.Purchase_Frequency < 100 THEN 0.15 ELSE 0.10 END) AS Discounted_Price " +
    "FROM Item I " +
    "ORDER BY I.Purchase_Frequency ASC",

    "SELECT E.Employee_ID, E.First_Name + ' ' + E.Last_Name AS Employee_Name, " +
    "E.Role, AVG(CF.Rating) AS Average_Rating, " +
    "COUNT(CF.Feedback_ID) AS Total_Feedback_Count, " +
    "CAST((SELECT TOP 1 Message FROM Customer_feedback " +
    "WHERE Employee_ID = E.Employee_ID ORDER BY Rating DESC) AS VARCHAR(MAX)) AS Representative_Comment " +
    "FROM Employee E " +
    "JOIN Customer_feedback CF ON E.Employee_ID = CF.Employee_ID " +
    "GROUP BY E.Employee_ID, E.First_Name, E.Last_Name, E.Role " +
    "HAVING AVG(CF.Rating) >= 4.5 " +
    "ORDER BY Average_Rating DESC",

    "SELECT o.Order_Type_ID, ot.Type_Name AS Delivery_Type, " +
    "COUNT(*) AS Delivery_Frequency, " +
    "ROUND(COUNT(*) * 100.0 / (SELECT COUNT(*) FROM Orders), 2) AS Delivery_Percentage " +
    "FROM Orders o " +
    "JOIN Order_Types ot ON o.Order_Type_ID = ot.Type_ID " +
    "GROUP BY o.Order_Type_ID, ot.Type_Name",

    "SELECT AVG(Total_amount) AS Average_Order_Amount, " +
    "MIN(Total_amount) AS Minimum_Order_Amount, " +
    "MAX(Total_amount) AS Maximum_Order_Amount, " +
    "COUNT(*) AS Total_Orders, " +
    "STDEV(Total_amount) AS Order_Amount_Variation, " +
    "SUM(CASE WHEN Total_amount < 20 THEN 1 ELSE 0 END) AS Small_Orders, " +
    "SUM(CASE WHEN Total_amount BETWEEN 20 AND 50 THEN 1 ELSE 0 END) AS Medium_Orders, " +
    "SUM(CASE WHEN Total_amount > 50 THEN 1 ELSE 0 END) AS Large_Orders " +
    "FROM Orders"
  ]

  /**
    A query catalog: display names and query texts as two parallel sequences,
    the entry at one position of each belonging together.
   */
  datatype QueryCatalog = QueryCatalog(displayNames: seq<string>, queryTexts: seq<string>)

  /** A catalog whose two sequences have the same length. */
  type ParallelCatalog = c: QueryCatalog | |c.displayNames| == |c.queryTexts|
    witness QueryCatalog([], [])

  /**
    The catalog the application declares. Both arrays have CatalogSize
    entries, so every list index 0 .. 9 has a display name and a query text.
   */
  function DeclaredCatalog(): (c: ParallelCatalog)
    ensures |c.displayNames| == CatalogSize && |c.queryTexts| == CatalogSize
  {
    QueryCatalog(AvailableQueries, QueryStrings)
  }

  /** True when every entry of a selection names an entry of the catalog. */
  predicate ValidIndices(c: ParallelCatalog, selection: seq<int>)
  {
    forall k :: 0 <= k < |selection| ==> 0 <= selection[k] < |c.displayNames|
  }
}
